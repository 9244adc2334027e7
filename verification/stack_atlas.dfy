/**
 * The GC stack-atlas encoder of the test compiler's front end.
 *
 * A stack atlas is a fixed header followed by one encoded entry per GC stack
 * map. Adjacent maps that describe the same live slots and registers are
 * coalesced, so only the last map of such a run is encoded. Entries are
 * written backwards from the end of the atlas buffer, because the map list
 * is kept in reverse code order.
 */
module StackAtlas {
  import opened Bytes
  import opened Optional

  /**
   * The size of the atlas header. The header holds, in this order, the map
   * count and the bytes per stack map (unsigned 16-bit) and the frame-object
   * parameter offset and local base offset (signed 16-bit).
   */
  const HeaderSize: nat := 8

  /** One GC stack map: a safe point's code offset and its liveness bits. */
  datatype StackMap = StackMap(
    lowestCodeOffset: u32,
    mapBits: seq<byte>,            // its length is the map's size in bytes
    registerMap: bv32,
    highWordRegisterMap: bv32,     // compared on s390 hosts only
    registerSaveDescription: bv32)

  /** The per-method atlas the encoder reads. */
  datatype Atlas = Atlas(
    maps: seq<StackMap>,           // the stack map list, in list order
    parameterMap: Option<nat>,     // position of the parameter map, if listed
    numberOfMaps: nat,
    numberOfParmSlotsMapped: nat,
    parmBaseOffset: int,
    localBaseOffset: int)

  /** Compilation options and host properties the encoder consults. */
  datatype Config = Config(
    disableShrinkWrapping: bool,
    hostS390: bool,
    order: ByteOrder)

  /** The decoded header fields. */
  datatype Header = Header(
    numberOfMaps: u16,
    bytesPerStackMap: u16,
    frameObjectParmOffset: int,
    localBaseOffset: int)

  /** One decoded atlas entry. */
  datatype Entry = Entry(codeOffset: u32, bits: seq<byte>)

  /** What `createStackAtlas` leaves behind: an atlas, or a field overflow. */
  datatype AtlasOutcome =
    | Encoded(bytes: seq<byte>, lowestMapOffset: nat)
    | Overflowed(bytes: seq<byte>)

  // ---------------------------------------------------------------------------
  // Field widths

  /**
   * Whether a code range needs four-byte offsets. The bound is inclusive:
   * a range of exactly 65535 already selects four bytes.
   */
  function RangeNeedsFourByteOffset(range: int): (r: nat)
    ensures r == 0 || r == 1
    ensures r == 1 <==> range >= USHRT_MAX
  {
    if range >= USHRT_MAX then 1 else 0
  }

  function OffsetWidth(fourByteOffsets: bool): nat
  {
    if fourByteOffsets then 4 else 2
  }

  /** The bytes one encoded map occupies: its offset field plus its bits. */
  function EncodedMapSize(fourByteOffsets: bool, bytesPerStackMap: nat): (r: nat)
    ensures r == OffsetWidth(fourByteOffsets) + bytesPerStackMap
    ensures r >= 2
  {
    OffsetWidth(fourByteOffsets) + bytesPerStackMap
  }

  /** The code offset value an entry holds after the store into its field. */
  function StoredOffset(m: StackMap, fourByteOffsets: bool): u32
  {
    if fourByteOffsets then m.lowestCodeOffset else Trunc16(m.lowestCodeOffset)
  }

  /** When the range fits two bytes, the two-byte field loses nothing. */
  lemma TwoByteOffsetsAreExact(m: StackMap, range: int)
    requires RangeNeedsFourByteOffset(range) == 0
    requires m.lowestCodeOffset <= range
    ensures StoredOffset(m, false) == m.lowestCodeOffset
  {
  }

  /** Whether some header field is too narrow for the value it must hold. */
  predicate FieldsOverflow(a: Atlas, bytesPerStackMap: nat)
  {
    || bytesPerStackMap > USHRT_MAX
    || a.numberOfMaps > USHRT_MAX
    || a.numberOfParmSlotsMapped > USHRT_MAX
    || a.parmBaseOffset < SHRT_MIN || a.parmBaseOffset > SHRT_MAX
    || a.localBaseOffset < SHRT_MIN || a.localBaseOffset > SHRT_MAX
  }

  // ---------------------------------------------------------------------------
  // Coalescing

  predicate IsParameterMap(a: Atlas, i: nat)
  {
    a.parameterMap == Some(i)
  }

  /** Two maps that would encode to the same liveness information. */
  predicate SameContent(m: StackMap, n: StackMap, c: Config)
  {
    && m.mapBits == n.mapBits
    && m.registerMap == n.registerMap
    && (c.hostS390 ==> m.highWordRegisterMap == n.highWordRegisterMap)
    && (c.disableShrinkWrapping || m.registerSaveDescription == n.registerSaveDescription)
  }

  /**
   * Whether map `i` may be dropped in favour of its successor in the list:
   * the successor exists, neither is the parameter map, and both carry the
   * same liveness information. The size check and the byte comparison
   * together amount to equal bit sequences.
   */
  predicate MapsAreIdentical(a: Atlas, i: nat, c: Config): (b: bool)
    requires i < |a.maps|
    ensures b <==> && i + 1 < |a.maps|
                   && a.parameterMap != Some(i) && a.parameterMap != Some(i + 1)
                   && SameContent(a.maps[i], a.maps[i + 1], c)
  {
    && i + 1 < |a.maps|
    && !IsParameterMap(a, i + 1)
    && !IsParameterMap(a, i)
    && |a.maps[i].mapBits| == |a.maps[i + 1].mapBits|
    && a.maps[i].registerMap == a.maps[i + 1].registerMap
    && a.maps[i].mapBits == a.maps[i + 1].mapBits
    && (c.hostS390 ==> a.maps[i].highWordRegisterMap == a.maps[i + 1].highWordRegisterMap)
    && (c.disableShrinkWrapping
        || a.maps[i].registerSaveDescription == a.maps[i + 1].registerSaveDescription)
  }

  /** The maps among the first `n` of the list that get an atlas entry. */
  function KeptPrefix(a: Atlas, c: Config, n: nat): (r: seq<StackMap>)
    requires n <= |a.maps|
    ensures |r| <= n
  {
    if n == 0 then []
    else KeptPrefix(a, c, n - 1)
         + (if MapsAreIdentical(a, n - 1, c) then [] else [a.maps[n - 1]])
  }

  /** The maps that get an atlas entry, in list order. */
  function KeptMaps(a: Atlas, c: Config): seq<StackMap>
  {
    KeptPrefix(a, c, |a.maps|)
  }

  /** Kept prefixes only grow: a longer prefix extends a shorter one. */
  lemma {:induction false} KeptPrefixExtends(a: Atlas, c: Config, i: nat, j: nat)
    requires i <= j <= |a.maps|
    ensures |KeptPrefix(a, c, i)| <= |KeptPrefix(a, c, j)|
    ensures KeptPrefix(a, c, j)[..|KeptPrefix(a, c, i)|] == KeptPrefix(a, c, i)
    decreases j - i
  {
    if i < j {
      KeptPrefixExtends(a, c, i, j - 1);
      var p := KeptPrefix(a, c, j - 1);
      assert KeptPrefix(a, c, j)[..|p|] == p;
    }
  }

  /** Map `j` is kept exactly when it is not identical to its successor,
      and then it sits in the kept list after the maps kept before it. */
  lemma KeptPositionOf(a: Atlas, c: Config, j: nat)
    requires j < |a.maps|
    ensures !MapsAreIdentical(a, j, c) <==> |KeptPrefix(a, c, j + 1)| == |KeptPrefix(a, c, j)| + 1
    ensures !MapsAreIdentical(a, j, c) ==>
              |KeptPrefix(a, c, j)| < |KeptMaps(a, c)|
              && KeptMaps(a, c)[|KeptPrefix(a, c, j)|] == a.maps[j]
  {
    KeptPrefixExtends(a, c, j + 1, |a.maps|);
  }

  /** The last map of the list and the parameter map are always encoded. */
  lemma LastAndParameterMapsAreEncoded(a: Atlas, c: Config, i: nat)
    requires i < |a.maps|
    requires i == |a.maps| - 1 || IsParameterMap(a, i) || IsParameterMap(a, i + 1)
    ensures !MapsAreIdentical(a, i, c)
  {
  }

  /**
   * The encoded map that stands for map `i`: the end of the run of
   * identical maps that starts at `i`. Every map of the run before it is
   * dropped, and it carries the same liveness information as map `i`.
   */
  function RunEnd(a: Atlas, c: Config, i: nat): (j: nat)
    requires i < |a.maps|
    ensures i <= j < |a.maps|
    ensures !MapsAreIdentical(a, j, c)
    ensures forall k :: i <= k < j ==> MapsAreIdentical(a, k, c)
    ensures SameContent(a.maps[i], a.maps[j], c)
    decreases |a.maps| - i
  {
    if !MapsAreIdentical(a, i, c) then i else RunEnd(a, c, i + 1)
  }

  /**
   * One entry per run: every map between `i` and the end of its run is
   * represented by that same encoded map.
   */
  lemma {:induction false} SameRunSameEntry(a: Atlas, c: Config, i: nat, k: nat)
    requires i <= k < |a.maps|
    requires k <= RunEnd(a, c, i)
    ensures RunEnd(a, c, k) == RunEnd(a, c, i)
    decreases k - i
  {
    if i < k {
      assert MapsAreIdentical(a, i, c);
      assert RunEnd(a, c, i) == RunEnd(a, c, i + 1);
      SameRunSameEntry(a, c, i + 1, k);
    }
  }

  // ---------------------------------------------------------------------------
  // Size

  /**
   * `calculateSizeOfStackAtlas`: the header plus one encoded map per map
   * that is not identical to its successor.
   */
  method CalculateSizeOfStackAtlas(a: Atlas, c: Config, fourByteOffsets: bool, bytesPerStackMap: u32)
    returns (atlasSize: nat)
    ensures atlasSize == HeaderSize + EncodedMapSize(fourByteOffsets, bytesPerStackMap) * |KeptMaps(a, c)|
    ensures atlasSize == HeaderSize + Span(EncodedMapSize(fourByteOffsets, bytesPerStackMap), |KeptMaps(a, c)|)
    ensures atlasSize <= HeaderSize + EncodedMapSize(fourByteOffsets, bytesPerStackMap) * |a.maps|
  {
    var mapSize := EncodedMapSize(fourByteOffsets, bytesPerStackMap);
    atlasSize := HeaderSize;
    var i := 0;
    while i < |a.maps|
      invariant i <= |a.maps|
      invariant atlasSize == HeaderSize + Span(mapSize, |KeptPrefix(a, c, i)|)
    {
      if !MapsAreIdentical(a, i, c) {
        atlasSize := atlasSize + mapSize;
      }
      i := i + 1;
    }
    SpanIsProduct(mapSize, |KeptMaps(a, c)|);
    SpanIsProduct(mapSize, |a.maps|);
    SpanMonotone(mapSize, |KeptMaps(a, c)|, |a.maps|);
  }

  /**
   * `n` encoded maps of `size` bytes laid end to end. Proofs reason about
   * this sum rather than the product it equals.
   */
  function Span(size: nat, n: nat): nat
  {
    if n == 0 then 0 else Span(size, n - 1) + size
  }

  lemma {:induction false} SpanIsProduct(size: nat, n: nat)
    ensures Span(size, n) == size * n
  {
    if n > 0 {
      SpanIsProduct(size, n - 1);
      assert size * n == size * (n - 1) + size;
    }
  }

  lemma {:induction false} SpanMonotone(size: nat, x: nat, y: nat)
    requires x <= y
    ensures Span(size, x) <= Span(size, y)
    decreases y
  {
    if x < y {
      SpanMonotone(size, x, y - 1);
    }
  }

  // ---------------------------------------------------------------------------
  // Encoding one map

  /** The code offset field at `pos`, read back as stored. */
  function ReadOffset(s: seq<byte>, pos: nat, fourByteOffsets: bool, order: ByteOrder): u32
    requires pos + OffsetWidth(fourByteOffsets) <= |s|
  {
    if fourByteOffsets then ReadU32(s, pos, order) else ReadU16(s, pos, order)
  }

  /** The bytes `encodeStackMap` writes: the offset field, then the map bits. */
  function MapImage(m: StackMap, fourByteOffsets: bool, order: ByteOrder): (r: seq<byte>)
    ensures |r| == OffsetWidth(fourByteOffsets) + |m.mapBits|
  {
    (if fourByteOffsets then U32Bytes(m.lowestCodeOffset, order)
     else U16Bytes(Trunc16(m.lowestCodeOffset), order))
    + m.mapBits
  }

  /** Whether an encoded map for `m` sits at `pos` in `s`. */
  predicate SlotHolds(s: seq<byte>, pos: nat, m: StackMap, fourByteOffsets: bool, order: ByteOrder)
  {
    var w := OffsetWidth(fourByteOffsets);
    && pos + w + |m.mapBits| <= |s|
    && ReadOffset(s, pos, fourByteOffsets, order) == StoredOffset(m, fourByteOffsets)
    && s[pos + w..pos + w + |m.mapBits|] == m.mapBits
  }

  /**
   * `encodeStackMap`: write `m` at `pos`. The entry reads back as the map's
   * stored offset and bits, and no byte outside it changes.
   */
  function EncodeStackMap(s: seq<byte>, pos: nat, m: StackMap, fourByteOffsets: bool, order: ByteOrder)
    : (r: seq<byte>)
    requires pos + OffsetWidth(fourByteOffsets) + |m.mapBits| <= |s|
    ensures |r| == |s|
    ensures SlotHolds(r, pos, m, fourByteOffsets, order)
    ensures forall i :: 0 <= i < |s| && !(pos <= i < pos + OffsetWidth(fourByteOffsets) + |m.mapBits|)
              ==> r[i] == s[i]
  {
    var r := Splice(s, pos, MapImage(m, fourByteOffsets, order));
    SplicedImageHolds(s, r, pos, m, fourByteOffsets, order);
    r
  }

  lemma SplicedImageHolds(s: seq<byte>, r: seq<byte>, pos: nat, m: StackMap,
                          fourByteOffsets: bool, order: ByteOrder)
    requires pos + OffsetWidth(fourByteOffsets) + |m.mapBits| <= |s|
    requires r == Splice(s, pos, MapImage(m, fourByteOffsets, order))
    ensures SlotHolds(r, pos, m, fourByteOffsets, order)
  {
    var img := MapImage(m, fourByteOffsets, order);
    var w := OffsetWidth(fourByteOffsets);
    assert r[pos..pos + w] == img[..w] by {
      assert r[pos..pos + |img|][..w] == img[..w];
    }
    assert r[pos + w..pos + w + |m.mapBits|] == m.mapBits by {
      assert r[pos..pos + |img|][w..] == img[w..];
    }
    if fourByteOffsets {
      ReadU32At(r, pos, m.lowestCodeOffset, order);
    } else {
      ReadU16At(r, pos, Trunc16(m.lowestCodeOffset), order);
    }
  }

  /** A slot survives a write that ends at or before it. */
  lemma SlotSurvivesWriteBelow(s: seq<byte>, t: seq<byte>, hi: nat, pos: nat, m: StackMap,
                               fourByteOffsets: bool, order: ByteOrder)
    requires |s| == |t|
    requires hi <= pos
    requires forall i :: hi <= i < |s| ==> t[i] == s[i]
    requires SlotHolds(s, pos, m, fourByteOffsets, order)
    ensures SlotHolds(t, pos, m, fourByteOffsets, order)
  {
    var w := OffsetWidth(fourByteOffsets);
    assert t[pos..pos + w] == s[pos..pos + w];
    assert t[pos + w..pos + w + |m.mapBits|] == s[pos + w..pos + w + |m.mapBits|];
    if fourByteOffsets {
      assert t[pos..pos + 4] == s[pos..pos + 4];
    }
  }

  // ---------------------------------------------------------------------------
  // Decoding, as the runtime's stack walker reads the atlas

  /** The entry at `pos`: its code offset field and `bytesPerStackMap` bits. */
  function DecodeEntry(s: seq<byte>, pos: nat, fourByteOffsets: bool, bytesPerStackMap: nat,
                       order: ByteOrder): Entry
    requires pos + EncodedMapSize(fourByteOffsets, bytesPerStackMap) <= |s|
  {
    var w := OffsetWidth(fourByteOffsets);
    Entry(ReadOffset(s, pos, fourByteOffsets, order), s[pos + w..pos + w + bytesPerStackMap])
  }

  /** The `n` consecutive entries starting at `start`, in address order. */
  function DecodeMaps(s: seq<byte>, start: nat, n: nat, fourByteOffsets: bool, bytesPerStackMap: nat,
                      order: ByteOrder): (r: seq<Entry>)
    requires start + Span(EncodedMapSize(fourByteOffsets, bytesPerStackMap), n) <= |s|
    ensures |r| == n
    decreases n
  {
    var size := EncodedMapSize(fourByteOffsets, bytesPerStackMap);
    if n == 0 then []
    else
      SpanFront(size, n - 1);
      [DecodeEntry(s, start, fourByteOffsets, bytesPerStackMap, order)]
      + DecodeMaps(s, start + size, n - 1, fourByteOffsets, bytesPerStackMap, order)
  }

  lemma {:induction false} SpanFront(size: nat, n: nat)
    ensures Span(size, n + 1) == size + Span(size, n)
  {
  }

  /** The entry a map is expected to decode to. */
  function EntryOf(m: StackMap, fourByteOffsets: bool): Entry
  {
    Entry(StoredOffset(m, fourByteOffsets), m.mapBits)
  }

  /** The entries of `ms` in reverse list order, the order they have in memory. */
  function ReversedEntries(ms: seq<StackMap>, fourByteOffsets: bool): (r: seq<Entry>)
    ensures |r| == |ms|
  {
    if |ms| == 0 then []
    else [EntryOf(ms[|ms| - 1], fourByteOffsets)] + ReversedEntries(ms[..|ms| - 1], fourByteOffsets)
  }

  /**
   * Whether the maps `ms` lie backwards from `end`: `ms[0]` just below `end`,
   * each later map just below the one before it.
   */
  predicate LaidBackwards(s: seq<byte>, ms: seq<StackMap>, end: nat, size: nat,
                          fourByteOffsets: bool, order: ByteOrder)
  {
    forall k :: 0 <= k < |ms| ==> LaidAt(s, ms[k], k, end, size, fourByteOffsets, order)
  }

  /** Whether `m` is the `k`-th map below `end`. */
  predicate LaidAt(s: seq<byte>, m: StackMap, k: nat, end: nat, size: nat,
                   fourByteOffsets: bool, order: ByteOrder)
  {
    Span(size, k + 1) <= end && SlotHolds(s, end - Span(size, k + 1), m, fourByteOffsets, order)
  }

  /** A slot holding a full-width map decodes to that map's entry. */
  lemma SlotDecodes(s: seq<byte>, pos: nat, m: StackMap, fourByteOffsets: bool,
                    bytesPerStackMap: nat, order: ByteOrder)
    requires |m.mapBits| == bytesPerStackMap
    requires SlotHolds(s, pos, m, fourByteOffsets, order)
    ensures pos + EncodedMapSize(fourByteOffsets, bytesPerStackMap) <= |s|
    ensures DecodeEntry(s, pos, fourByteOffsets, bytesPerStackMap, order) == EntryOf(m, fourByteOffsets)
  {
  }

  /** Dropping the last map keeps the rest of a backward layout. */
  lemma LaidBackwardsPrefix(s: seq<byte>, ms: seq<StackMap>, n: nat, end: nat, size: nat,
                            fourByteOffsets: bool, order: ByteOrder)
    requires n <= |ms|
    requires LaidBackwards(s, ms, end, size, fourByteOffsets, order)
    ensures LaidBackwards(s, ms[..n], end, size, fourByteOffsets, order)
  {
    forall k | 0 <= k < n
      ensures LaidAt(s, ms[..n][k], k, end, size, fourByteOffsets, order)
    {
      assert ms[..n][k] == ms[k];
    }
  }

  /** Maps laid backwards from `end` decode front to back as the reversed list. */
  lemma {:induction false} DecodeBackwardSlots(s: seq<byte>, ms: seq<StackMap>, end: nat,
                                               fourByteOffsets: bool, bytesPerStackMap: nat,
                                               order: ByteOrder)
    requires Span(EncodedMapSize(fourByteOffsets, bytesPerStackMap), |ms|) <= end <= |s|
    requires forall k :: 0 <= k < |ms| ==> |ms[k].mapBits| == bytesPerStackMap
    requires LaidBackwards(s, ms, end, EncodedMapSize(fourByteOffsets, bytesPerStackMap),
                           fourByteOffsets, order)
    ensures DecodeMaps(s, end - Span(EncodedMapSize(fourByteOffsets, bytesPerStackMap), |ms|), |ms|,
                       fourByteOffsets, bytesPerStackMap, order)
            == ReversedEntries(ms, fourByteOffsets)
  {
    var size := EncodedMapSize(fourByteOffsets, bytesPerStackMap);
    var n := |ms|;
    if n > 0 {
      var m := n - 1;
      var start := end - Span(size, n);
      LaidBackwardsPrefix(s, ms, m, end, size, fourByteOffsets, order);
      DecodeBackwardSlots(s, ms[..m], end, fourByteOffsets, bytesPerStackMap, order);
      SlotDecodes(s, start, ms[m], fourByteOffsets, bytesPerStackMap, order);
      DecodeMapsStep(s, start, m, fourByteOffsets, bytesPerStackMap, order);
    }
  }

  /** One unfolding of `DecodeMaps`. */
  lemma DecodeMapsStep(s: seq<byte>, start: nat, m: nat, fourByteOffsets: bool, bytesPerStackMap: nat,
                       order: ByteOrder)
    requires start + Span(EncodedMapSize(fourByteOffsets, bytesPerStackMap), m + 1) <= |s|
    ensures start + EncodedMapSize(fourByteOffsets, bytesPerStackMap)
            + Span(EncodedMapSize(fourByteOffsets, bytesPerStackMap), m) <= |s|
    ensures DecodeMaps(s, start, m + 1, fourByteOffsets, bytesPerStackMap, order)
            == [DecodeEntry(s, start, fourByteOffsets, bytesPerStackMap, order)]
               + DecodeMaps(s, start + EncodedMapSize(fourByteOffsets, bytesPerStackMap), m,
                            fourByteOffsets, bytesPerStackMap, order)
  {
  }

  // ---------------------------------------------------------------------------
  // Header

  function HeaderBytes(a: Atlas, bytesPerStackMap: nat, order: ByteOrder): (r: seq<byte>)
    ensures |r| == HeaderSize
  {
    U16Bytes(Trunc16(a.numberOfMaps), order)
    + U16Bytes(Trunc16(bytesPerStackMap), order)
    + U16Bytes(0, order)
    + U16Bytes(Trunc16(a.localBaseOffset), order)
  }

  function DecodeHeader(s: seq<byte>, order: ByteOrder): Header
    requires HeaderSize <= |s|
  {
    Header(ReadU16(s, 0, order), ReadU16(s, 2, order),
           AsSigned16(ReadU16(s, 4, order)), AsSigned16(ReadU16(s, 6, order)))
  }

  /**
   * The header reads back as the atlas's map count, the bytes per map, a
   * zero parameter offset and the local base offset, each cut to its field.
   */
  lemma HeaderRoundTrip(s: seq<byte>, a: Atlas, bytesPerStackMap: nat, order: ByteOrder)
    requires HeaderSize <= |s|
    requires s[..HeaderSize] == HeaderBytes(a, bytesPerStackMap, order)
    ensures DecodeHeader(s, order)
            == Header(Trunc16(a.numberOfMaps), Trunc16(bytesPerStackMap), 0,
                      AsSigned16(Trunc16(a.localBaseOffset)))
    ensures !FieldsOverflow(a, bytesPerStackMap) ==>
              DecodeHeader(s, order)
              == Header(a.numberOfMaps, bytesPerStackMap, 0, a.localBaseOffset)
  {
    HalfwordsOf(s[..HeaderSize], U16Bytes(Trunc16(a.numberOfMaps), order),
                U16Bytes(Trunc16(bytesPerStackMap), order), U16Bytes(0, order),
                U16Bytes(Trunc16(a.localBaseOffset), order));
    assert s[0..2] == s[..HeaderSize][0..2];
    assert s[2..4] == s[..HeaderSize][2..4];
    assert s[4..6] == s[..HeaderSize][4..6];
    assert s[6..8] == s[..HeaderSize][6..8];
    ReadU16At(s, 0, Trunc16(a.numberOfMaps), order);
    ReadU16At(s, 2, Trunc16(bytesPerStackMap), order);
    ReadU16At(s, 4, 0, order);
    ReadU16At(s, 6, Trunc16(a.localBaseOffset), order);
  }

  /** The four halfwords of an eight-byte concatenation. */
  lemma HalfwordsOf(h: seq<byte>, p: seq<byte>, q: seq<byte>, r: seq<byte>, t: seq<byte>)
    requires |p| == |q| == |r| == |t| == 2
    requires h == p + q + r + t
    ensures h[0..2] == p && h[2..4] == q && h[4..6] == r && h[6..8] == t
  {
  }

  // ---------------------------------------------------------------------------
  // The atlas

  /**
   * `createStackAtlas`: write the header into `buffer` (the `atlasSizeInBytes`
   * bytes at the atlas base), then abort if a header field overflowed, else
   * walk the map list and write each map that is not identical to its
   * successor just below the previously written one, starting at the end.
   */
  method CreateStackAtlas(a: Atlas, c: Config, fourByteOffsets: bool, bytesPerStackMap: u32,
                          buffer: seq<byte>)
    returns (out: AtlasOutcome)
    requires |buffer| >= HeaderSize + Span(EncodedMapSize(fourByteOffsets, bytesPerStackMap), |KeptMaps(a, c)|)
    requires forall i :: 0 <= i < |a.maps| ==> |a.maps[i].mapBits| <= bytesPerStackMap
    ensures |out.bytes| == |buffer|
    ensures out.bytes[..HeaderSize] == HeaderBytes(a, bytesPerStackMap, c.order)
    ensures out.Overflowed? <==> FieldsOverflow(a, bytesPerStackMap)
    ensures out.Overflowed? ==> out.bytes[HeaderSize..] == buffer[HeaderSize..]
    ensures out.Encoded? ==>
              && out.lowestMapOffset
                 == |buffer| - Span(EncodedMapSize(fourByteOffsets, bytesPerStackMap), |KeptMaps(a, c)|)
              && HeaderSize <= out.lowestMapOffset
              && out.bytes[HeaderSize..out.lowestMapOffset] == buffer[HeaderSize..out.lowestMapOffset]
              && LaidBackwards(out.bytes, KeptMaps(a, c), |buffer|,
                               EncodedMapSize(fourByteOffsets, bytesPerStackMap), fourByteOffsets, c.order)
    ensures out.Encoded? && |buffer|
              == HeaderSize + Span(EncodedMapSize(fourByteOffsets, bytesPerStackMap), |KeptMaps(a, c)|)
            ==> out.lowestMapOffset == HeaderSize
  {
    var bytes := Splice(buffer, 0, HeaderBytes(a, bytesPerStackMap, c.order));
    assert bytes[HeaderSize..] == buffer[HeaderSize..];
    if FieldsOverflow(a, bytesPerStackMap) {
      return Overflowed(bytes);
    }
    var laid, lowest := LayOutMaps(a, c, fourByteOffsets, bytesPerStackMap, bytes);
    SameBetween(laid, buffer, HeaderSize, lowest);
    out := Encoded(laid, lowest);
  }

  /**
   * The map loop of `createStackAtlas`: walk the list front to back and write
   * each kept map just below the previously written one, starting at the end
   * of `buffer`. Returns the bytes and the lowest map's offset.
   */
  method LayOutMaps(a: Atlas, c: Config, fourByteOffsets: bool, bytesPerStackMap: nat, buffer: seq<byte>)
    returns (bytes: seq<byte>, cursor: nat)
    requires |buffer| >= HeaderSize + Span(EncodedMapSize(fourByteOffsets, bytesPerStackMap), |KeptMaps(a, c)|)
    requires forall i :: 0 <= i < |a.maps| ==> |a.maps[i].mapBits| <= bytesPerStackMap
    ensures |bytes| == |buffer|
    ensures cursor == |buffer| - Span(EncodedMapSize(fourByteOffsets, bytesPerStackMap), |KeptMaps(a, c)|)
    ensures forall p :: 0 <= p < cursor ==> bytes[p] == buffer[p]
    ensures LaidBackwards(bytes, KeptMaps(a, c), |buffer|,
                          EncodedMapSize(fourByteOffsets, bytesPerStackMap), fourByteOffsets, c.order)
  {
    var size := EncodedMapSize(fourByteOffsets, bytesPerStackMap);
    ghost var total := |KeptMaps(a, c)|;
    bytes := buffer;
    cursor := |buffer|;
    var i := 0;
    assert KeptPrefix(a, c, 0) == [];
    while i < |a.maps|
      invariant i <= |a.maps|
      invariant |bytes| == |buffer|
      invariant Span(size, |KeptPrefix(a, c, i)|) <= |buffer|
      invariant cursor == |buffer| - Span(size, |KeptPrefix(a, c, i)|)
      invariant forall p :: 0 <= p < cursor ==> bytes[p] == buffer[p]
      invariant LaidBackwards(bytes, KeptPrefix(a, c, i), |buffer|, size, fourByteOffsets, c.order)
    {
      ghost var kept := KeptPrefix(a, c, i);
      if MapsAreIdentical(a, i, c) {
        assert KeptPrefix(a, c, i + 1) == kept;
      } else {
        assert KeptPrefix(a, c, i + 1) == kept + [a.maps[i]];
        KeptPrefixExtends(a, c, i + 1, |a.maps|);
        SpanMonotone(size, |kept| + 1, total);
        cursor := cursor - size;
        var next := EncodeStackMap(bytes, cursor, a.maps[i], fourByteOffsets, c.order);
        WriteBelowLaidMaps(bytes, next, cursor, kept, a.maps[i], |buffer|, size, bytesPerStackMap,
                           fourByteOffsets, c.order);
        bytes := next;
      }
      i := i + 1;
    }
  }

  lemma SameBetween(s: seq<byte>, t: seq<byte>, lo: nat, hi: nat)
    requires lo <= hi <= |s| == |t|
    requires forall p :: lo <= p < hi ==> s[p] == t[p]
    ensures s[lo..hi] == t[lo..hi]
  {
  }

  /**
   * Writing the next map just below the maps already laid backwards keeps
   * them intact, extends the layout by one, and touches nothing lower.
   */
  lemma WriteBelowLaidMaps(s: seq<byte>, t: seq<byte>, cursor: nat, kept: seq<StackMap>, m: StackMap,
                           end: nat, size: nat, bytesPerStackMap: nat, fourByteOffsets: bool,
                           order: ByteOrder)
    requires size == EncodedMapSize(fourByteOffsets, bytesPerStackMap)
    requires |m.mapBits| <= bytesPerStackMap
    requires end <= |s|
    requires Span(size, |kept| + 1) <= end
    requires cursor == end - Span(size, |kept| + 1)
    requires LaidBackwards(s, kept, end, size, fourByteOffsets, order)
    requires t == EncodeStackMap(s, cursor, m, fourByteOffsets, order)
    ensures LaidBackwards(t, kept + [m], end, size, fourByteOffsets, order)
    ensures forall p :: 0 <= p < cursor ==> t[p] == s[p]
  {
    var kept' := kept + [m];
    forall k | 0 <= k < |kept'|
      ensures LaidAt(t, kept'[k], k, end, size, fourByteOffsets, order)
    {
      if k < |kept| {
        assert kept'[k] == kept[k];
        assert LaidAt(s, kept[k], k, end, size, fourByteOffsets, order);
        EarlierSlotSurvives(s, t, cursor, kept[k], k, |kept|, end, size, fourByteOffsets, order);
      } else {
        assert kept'[k] == m;
      }
    }
    assert LaidBackwards(t, kept', end, size, fourByteOffsets, order);
  }

  /** A write at the `n`-th slot below `end` keeps the `k`-th slot, `k < n`. */
  lemma EarlierSlotSurvives(s: seq<byte>, t: seq<byte>, cursor: nat, m: StackMap, k: nat, n: nat,
                            end: nat, size: nat, fourByteOffsets: bool, order: ByteOrder)
    requires k < n
    requires |s| == |t|
    requires cursor + size == end - Span(size, n)
    requires forall i :: cursor + size <= i < |s| ==> t[i] == s[i]
    requires LaidAt(s, m, k, end, size, fourByteOffsets, order)
    ensures LaidAt(t, m, k, end, size, fourByteOffsets, order)
  {
    SpanMonotone(size, k + 1, n);
    SlotSurvivesWriteBelow(s, t, cursor + size, end - Span(size, k + 1), m, fourByteOffsets, order);
  }

  /**
   * Round trip: an atlas sized by `CalculateSizeOfStackAtlas`, whose maps all
   * have `bytesPerStackMap` bytes, decodes to the header fields and to the
   * kept maps' entries in reverse list order.
   */
  lemma AtlasRoundTrip(a: Atlas, c: Config, fourByteOffsets: bool, bytesPerStackMap: u32,
                       bytes: seq<byte>)
    requires |bytes| == HeaderSize + Span(EncodedMapSize(fourByteOffsets, bytesPerStackMap), |KeptMaps(a, c)|)
    requires forall i :: 0 <= i < |a.maps| ==> |a.maps[i].mapBits| == bytesPerStackMap
    requires !FieldsOverflow(a, bytesPerStackMap)
    requires bytes[..HeaderSize] == HeaderBytes(a, bytesPerStackMap, c.order)
    requires LaidBackwards(bytes, KeptMaps(a, c), |bytes|,
                           EncodedMapSize(fourByteOffsets, bytesPerStackMap), fourByteOffsets, c.order)
    ensures DecodeHeader(bytes, c.order) == Header(a.numberOfMaps, bytesPerStackMap, 0, a.localBaseOffset)
    ensures DecodeMaps(bytes, HeaderSize, |KeptMaps(a, c)|, fourByteOffsets, bytesPerStackMap, c.order)
            == ReversedEntries(KeptMaps(a, c), fourByteOffsets)
  {
    HeaderRoundTrip(bytes, a, bytesPerStackMap, c.order);
    var kept := KeptMaps(a, c);
    var size := EncodedMapSize(fourByteOffsets, bytesPerStackMap);
    forall k | 0 <= k < |kept|
      ensures |kept[k].mapBits| == bytesPerStackMap
    {
      KeptAreListed(a, c, |a.maps|, k);
    }
    DecodeBackwardSlots(bytes, kept, |bytes|, fourByteOffsets, bytesPerStackMap, c.order);
  }

  /** Every kept map is a map of the list. */
  lemma {:induction false} KeptAreListed(a: Atlas, c: Config, n: nat, k: nat)
    requires n <= |a.maps|
    requires k < |KeptPrefix(a, c, n)|
    ensures exists i :: 0 <= i < n && KeptPrefix(a, c, n)[k] == a.maps[i]
    decreases n
  {
    if k < |KeptPrefix(a, c, n - 1)| {
      KeptAreListed(a, c, n - 1, k);
      var i :| 0 <= i < n - 1 && KeptPrefix(a, c, n - 1)[k] == a.maps[i];
      assert KeptPrefix(a, c, n)[k] == a.maps[i];
    } else {
      assert KeptPrefix(a, c, n)[k] == a.maps[n - 1];
    }
  }
}
