/**
 * Use/def index partitioning and the tagged use/def entry.
 *
 * Every node that can define or use a value gets an index. Indices are laid
 * out in three consecutive parts: def-only nodes, nodes that both define and
 * use, and use-only nodes. The index getters are arithmetic over the three
 * counts; the membership tests compare an unsigned 32-bit index with signed
 * 32-bit bounds, and C++ converts the bound to unsigned for that comparison.
 */
module UseDefIndices {
  import opened Bytes

  /** The counts the index layout is computed from. */
  datatype Counts = Counts(numDefOnlyNodes: nat, numDefUseNodes: nat, numUseOnlyNodes: nat,
                           numDefsOnEntry: nat, uniqueIndexForDefsOnEntry: bool)

  /** The counts are `int32_t` fields; the model keeps their sums in range too. */
  predicate Fits(c: Counts)
  {
    c.numDefOnlyNodes + c.numDefUseNodes + c.numUseOnlyNodes < 0x8000_0000
    && c.numDefsOnEntry < 0x8000_0000
  }

  function NumUseNodes(c: Counts): int { c.numUseOnlyNodes + c.numDefUseNodes }
  function NumDefNodes(c: Counts): int { c.numDefOnlyNodes + c.numDefUseNodes }
  function TotalNodes(c: Counts): int { c.numDefOnlyNodes + c.numDefUseNodes + c.numUseOnlyNodes }
  function FirstUseIndex(c: Counts): int { c.numDefOnlyNodes }
  function LastUseIndex(c: Counts): int { TotalNodes(c) - 1 }
  function FirstDefIndex(c: Counts): int { 0 }
  function LastDefIndex(c: Counts): int { NumDefNodes(c) - 1 }

  /** `getNumDefsOnEntry`: the entry defs share one index unless each has its own. */
  function NumDefsOnEntry(c: Counts): (r: int)
    ensures c.uniqueIndexForDefsOnEntry ==> r == c.numDefsOnEntry
    ensures !c.uniqueIndexForDefsOnEntry ==> r == 1
  {
    if c.uniqueIndexForDefsOnEntry then c.numDefsOnEntry else 1
  }

  /** `getFirstRealDefIndex`: the first index after the defs on entry. */
  function FirstRealDefIndex(c: Counts): (r: int)
    ensures r == NumDefsOnEntry(c) >= 0
  {
    FirstDefIndex(c) + NumDefsOnEntry(c)
  }

  /** The usual arithmetic conversion of an `int32_t` value to `uint32_t`. */
  function ToUnsigned(x: int): (r: u32)
    requires -0x8000_0000 <= x < 0x8000_0000
    ensures x >= 0 ==> r == x
    ensures x < 0 ==> r == x + 0x1_0000_0000
  {
    x % 0x1_0000_0000
  }

  // ---------------------------------------------------------------------------
  // Membership, as written and as intended

  /**
   * `isDefIndex` as compiled: the bound is converted to unsigned, so with no
   * def nodes (last def index -1) every nonzero index passes.
   */
  predicate IsDefIndexAsWritten(c: Counts, index: u32): (b: bool)
    requires Fits(c)
    ensures b <==> index != 0 && (NumDefNodes(c) == 0 || IsDefIndex(c, index))
  {
    index != 0 && index <= ToUnsigned(LastDefIndex(c))
  }

  /**
   * `isUseIndex` as compiled: both bounds are converted to unsigned, so with
   * no nodes at all (last use index -1) every index passes.
   */
  predicate IsUseIndexAsWritten(c: Counts, index: u32): (b: bool)
    requires Fits(c)
    ensures b <==> TotalNodes(c) == 0 || IsUseIndex(c, index)
  {
    index >= ToUnsigned(FirstUseIndex(c)) && index <= ToUnsigned(LastUseIndex(c))
  }

  /** `isDefIndex` with the comparison done on the values. */
  predicate IsDefIndex(c: Counts, index: u32)
  {
    index != 0 && index <= LastDefIndex(c)
  }

  /** `isUseIndex` with the comparison done on the values. */
  predicate IsUseIndex(c: Counts, index: u32)
  {
    FirstUseIndex(c) <= index <= LastUseIndex(c)
  }

  /** When there is at least one def (one node), the unsigned comparison is harmless. */
  lemma AsWrittenAgreesWithoutEmptyParts(c: Counts, index: u32)
    requires Fits(c)
    ensures NumDefNodes(c) > 0 ==> (IsDefIndexAsWritten(c, index) <==> IsDefIndex(c, index))
    ensures TotalNodes(c) > 0 ==> (IsUseIndexAsWritten(c, index) <==> IsUseIndex(c, index))
  {
  }

  /**
   * With no def nodes the last def index is -1, which becomes 2^32-1: every
   * nonzero index then counts as a def index. Likewise with no nodes at all
   * every index counts as a use index.
   */
  lemma EmptyPartsAdmitEveryIndex(index: u32)
    requires index != 0
    ensures var none := Counts(0, 0, 0, 0, false);
            && IsDefIndexAsWritten(none, index) && !IsDefIndex(none, index)
            && IsUseIndexAsWritten(none, index) && !IsUseIndex(none, index)
  {
    var none := Counts(0, 0, 0, 0, false);
    assert LastDefIndex(none) == LastUseIndex(none) == -1;
    assert ToUnsigned(-1) == 0xFFFF_FFFF;
  }

  // ---------------------------------------------------------------------------
  // The partition

  /**
   * Def indices are `1 .. numDefOnly+numDefUse-1` (index 0 never is one) and
   * use indices are `numDefOnly .. total-1`; a nonzero index is both exactly
   * when it falls in the def-use part.
   */
  lemma IndexParts(c: Counts, index: u32)
    ensures IsDefIndex(c, index) <==> 1 <= index <= c.numDefOnlyNodes + c.numDefUseNodes - 1
    ensures IsUseIndex(c, index) <==> c.numDefOnlyNodes <= index <= TotalNodes(c) - 1
    ensures index != 0 ==>
              (IsDefIndex(c, index) && IsUseIndex(c, index)
               <==> c.numDefOnlyNodes <= index <= c.numDefOnlyNodes + c.numDefUseNodes - 1)
    ensures !IsDefIndex(c, 0)
  {
  }

  /**
   * Every nonzero index below the total lies in exactly one part: def only,
   * def and use, or use only.
   */
  lemma PartitionIsExact(c: Counts, index: u32)
    requires 0 < index < TotalNodes(c)
    ensures var def := IsDefIndex(c, index);
            var use := IsUseIndex(c, index);
            && (index < c.numDefOnlyNodes <==> def && !use)
            && (c.numDefOnlyNodes <= index < NumDefNodes(c) <==> def && use)
            && (NumDefNodes(c) <= index <==> !def && use)
  {
  }

  /**
   * The first indices are reserved for the initial definitions of parameters
   * and fields: real defs start after them. The reserved indices other than
   * 0 are def-only indices whenever the def-only part covers them, and the
   * real def indices are def indices. With a unique index per entry def but
   * no entry defs, the first real def index is 0, which is never a def index.
   */
  lemma EntryDefsReserveFirstIndices(c: Counts, index: u32)
    ensures !c.uniqueIndexForDefsOnEntry ==> FirstRealDefIndex(c) == 1
    ensures 1 <= FirstRealDefIndex(c) <= index <= LastDefIndex(c) ==> IsDefIndex(c, index)
    ensures 0 < index < FirstRealDefIndex(c) <= c.numDefOnlyNodes ==>
              IsDefIndex(c, index) && !IsUseIndex(c, index)
    ensures c.uniqueIndexForDefsOnEntry && c.numDefsOnEntry == 0 ==>
              FirstRealDefIndex(c) == 0 && !IsDefIndex(c, FirstRealDefIndex(c) as u32)
  {
    if 0 < index < FirstRealDefIndex(c) <= c.numDefOnlyNodes {
      IndexParts(c, index);
    }
  }

  // ---------------------------------------------------------------------------
  // Expanded indices

  /** The counts after expansion, used by reaching-definitions analysis. */
  datatype ExpandedCounts = ExpandedCounts(numDefOnlyNodes: nat, numDefUseNodes: nat, numUseOnlyNodes: nat)

  function NumExpandedDefNodes(e: ExpandedCounts): int { e.numDefOnlyNodes + e.numDefUseNodes }
  function ExpandedTotalNodes(e: ExpandedCounts): int { e.numDefOnlyNodes + e.numDefUseNodes + e.numUseOnlyNodes }

  /** The expanded counts laid out as the three parts of an ordinary index space. */
  function Layout(e: ExpandedCounts): Counts
  {
    Counts(e.numDefOnlyNodes, e.numDefUseNodes, e.numUseOnlyNodes, 0, false)
  }

  /** `isExpandedDefIndex`: a def index of the expanded layout. */
  predicate IsExpandedDefIndex(e: ExpandedCounts, index: u32): (b: bool)
    ensures b <==> IsDefIndex(Layout(e), index)
  {
    index != 0 && index < NumExpandedDefNodes(e)
  }

  /** `isExpandedUseIndex`: a use index of the expanded layout. */
  predicate IsExpandedUseIndex(e: ExpandedCounts, index: u32): (b: bool)
    ensures b <==> IsUseIndex(Layout(e), index)
  {
    index >= e.numDefOnlyNodes && index < ExpandedTotalNodes(e)
  }

  /** `isExpandedUseDefIndex`: an index of the expanded layout's def-use part. */
  predicate IsExpandedUseDefIndex(e: ExpandedCounts, index: u32): (b: bool)
    ensures b <==> IsUseIndex(Layout(e), index) && index <= LastDefIndex(Layout(e))
  {
    index >= e.numDefOnlyNodes && index < NumExpandedDefNodes(e)
  }

  /**
   * With at least one expanded def-only node, an index is an expanded
   * use-def index exactly when it is both an expanded def and use index.
   * Without that node, index 0 is a use-def index but not a def index.
   */
  lemma ExpandedUseDefIsBoth(e: ExpandedCounts, index: u32)
    ensures e.numDefOnlyNodes >= 1 ==>
              (IsExpandedUseDefIndex(e, index) <==> IsExpandedDefIndex(e, index) && IsExpandedUseIndex(e, index))
    ensures e.numDefOnlyNodes == 0 && e.numDefUseNodes > 0 ==>
              IsExpandedUseDefIndex(e, 0) && !IsExpandedDefIndex(e, 0)
  {
  }
}

/**
 * `TR_UseDef`: a tree top (a def) or a node (a use or def), in one pointer
 * whose low bit tags the tree-top case. Both kinds of object are at least
 * two-byte aligned, so their addresses are even.
 */
module TaggedUseDef {

  /** The stored word: a pointer, with the low bit set for a tree top. */
  datatype UseDef = UseDef(word: bv64)

  predicate Aligned(p: bv64)
  {
    p & 1 == 0
  }

  /** The default constructor: a null node pointer. */
  function Empty(): (u: UseDef)
    ensures !IsDef(u)
  {
    UseDef(0)
  }

  /** Built from a tree top: the address with the low bit set. */
  function FromTreeTop(tt: bv64): (u: UseDef)
    requires Aligned(tt)
    ensures IsDef(u)
  {
    UseDef(tt | 1)
  }

  /** Built from a node: the address itself. */
  function FromNode(node: bv64): (u: UseDef)
    requires Aligned(node)
    ensures !IsDef(u)
  {
    UseDef(node)
  }

  /**
   * `isDef`: the low bit is set. Tree tops and nodes are aligned, so only an
   * entry that is not an aligned address can be a def.
   */
  predicate IsDef(u: UseDef): (b: bool)
    ensures b <==> !Aligned(u.word)
  {
    u.word & 1 != 0
  }

  /** `getDef`: the address with the tag cleared. */
  function GetDef(u: UseDef): (tt: bv64)
    requires IsDef(u)
    ensures Aligned(tt)
  {
    u.word & !1
  }

  /** `getUseDef`: the stored node address, from which the entry is rebuilt. */
  function GetUseDef(u: UseDef): (node: bv64)
    requires !IsDef(u)
    ensures Aligned(node) && FromNode(node) == u
  {
    u.word
  }

  /** Tagging a tree top and reading it back gives the same address. */
  lemma TreeTopRoundTrip(tt: bv64)
    requires Aligned(tt)
    ensures GetDef(FromTreeTop(tt)) == tt
  {
  }

  /** Storing a node and reading it back gives the same address. */
  lemma NodeRoundTrip(node: bv64)
    requires Aligned(node)
    ensures GetUseDef(FromNode(node)) == node
  {
  }

  /** A tree top and a node never share a stored word. */
  lemma KindsAreDisjoint(tt: bv64, node: bv64)
    requires Aligned(tt) && Aligned(node)
    ensures FromTreeTop(tt) != FromNode(node)
  {
  }
}
