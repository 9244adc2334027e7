/**
 * Alias sets of symbol references.
 *
 * Every symbol reference, named by its reference number, may own two bit
 * vectors: the references it kills (its use/def aliases) and the references
 * whose definitions it uses (its use-only aliases). Either vector may be
 * absent. Setting an alias updates those vectors; the query operations
 * combine an alias container, either one reference number or a bit vector,
 * with a caller's bit vector. Bit vectors are sets of reference numbers.
 */
module AliasSets {
  import opened Optional

  /** A symbol reference's flags and its two alias vectors. */
  datatype SymRef = SymRef(isMethod: bool, kills: Option<set<nat>>, useOnly: Option<set<nat>>)

  /** The symbol reference table, keyed by reference number. */
  type Table = map<nat, SymRef>

  /** The references `s` kills; an absent vector kills nothing. */
  function KillSet(s: SymRef): set<nat>
  {
    if s.kills.Some? then s.kills.value else {}
  }

  /** The references whose definitions `s` uses; an absent vector means none. */
  function UseSet(s: SymRef): set<nat>
  {
    if s.useOnly.Some? then s.useOnly.value else {}
  }

  /** Neither operation ever creates, drops or retypes a vector or a symbol. */
  predicate SameShape(t: Table, u: Table)
  {
    && u.Keys == t.Keys
    && forall r | r in t ::
         && u[r].isMethod == t[r].isMethod
         && u[r].kills.Some? == t[r].kills.Some?
         && u[r].useOnly.Some? == t[r].useOnly.Some?
  }

  /**
   * The kill and use-only vectors mirror each other: wherever both are
   * present, `r1` kills `r2` exactly when `r2` lists `r1` as a use-only alias.
   */
  predicate Mirrored(t: Table)
  {
    forall r1, r2 | r1 in t && r2 in t && t[r1].kills.Some? && t[r2].useOnly.Some? ::
      r2 in t[r1].kills.value <==> r1 in t[r2].useOnly.value
  }

  // ---------------------------------------------------------------------------
  // One direction of a kill

  /**
   * `addSymRef1KillsSymRef2Asymmetrically`: `r2` joins `r1`'s kill vector and
   * `r1` joins `r2`'s use-only vector, each only if that vector exists.
   */
  function AddKills(t: Table, r1: nat, r2: nat): (u: Table)
    requires r1 in t && r2 in t
    ensures SameShape(t, u)
    ensures r2 in KillSet(u[r1]) <==> t[r1].kills.Some?
    ensures r1 in UseSet(u[r2]) <==> t[r2].useOnly.Some?
    ensures forall r | r in t ::
              && KillSet(u[r]) - {r2} == KillSet(t[r]) - {r2}
              && (r != r1 ==> KillSet(u[r]) == KillSet(t[r]))
              && UseSet(u[r]) - {r1} == UseSet(t[r]) - {r1}
              && (r != r2 ==> UseSet(u[r]) == UseSet(t[r]))
  {
    var s1 := t[r1];
    var t1 := if s1.kills.Some? then t[r1 := s1.(kills := Some(s1.kills.value + {r2}))] else t;
    var s2 := t1[r2];
    if s2.useOnly.Some? then t1[r2 := s2.(useOnly := Some(s2.useOnly.value + {r1}))] else t1
  }

  /**
   * `removeSymRef1KillsSymRef2Asymmetrically`: when both vectors exist, `r2`
   * leaves `r1`'s kill vector and `r1` leaves `r2`'s use-only vector; when
   * either is absent nothing changes at all.
   */
  function RemoveKills(t: Table, r1: nat, r2: nat): (u: Table)
    requires r1 in t && r2 in t
    ensures SameShape(t, u)
    ensures t[r1].kills.None? || t[r2].useOnly.None? ==> u == t
    ensures t[r1].kills.Some? && t[r2].useOnly.Some? ==>
              && r2 !in KillSet(u[r1]) && r1 !in UseSet(u[r2])
              && KillSet(u[r1]) == KillSet(t[r1]) - {r2}
              && UseSet(u[r2]) == UseSet(t[r2]) - {r1}
    ensures forall r | r in t ::
              && (r != r1 ==> KillSet(u[r]) == KillSet(t[r]))
              && (r != r2 ==> UseSet(u[r]) == UseSet(t[r]))
  {
    if t[r1].kills.None? || t[r2].useOnly.None? then t
    else
      var s1 := t[r1];
      var t1 := t[r1 := s1.(kills := Some(s1.kills.value - {r2}))];
      var s2 := t1[r2];
      t1[r2 := s2.(useOnly := Some(s2.useOnly.value - {r1}))]
  }

  /** `setSymRef1KillsSymRef2Asymmetrically`: add or remove by `value`. */
  function SetKills(t: Table, r1: nat, r2: nat, value: bool): (u: Table)
    requires r1 in t && r2 in t
    ensures SameShape(t, u)
    ensures value ==> u == AddKills(t, r1, r2)
    ensures !value ==> u == RemoveKills(t, r1, r2)
  {
    if value then AddKills(t, r1, r2) else RemoveKills(t, r1, r2)
  }

  /** Both updates keep the kill and use-only vectors mirrored. */
  lemma SetKillsKeepsMirror(t: Table, r1: nat, r2: nat, value: bool)
    requires r1 in t && r2 in t
    requires Mirrored(t)
    ensures Mirrored(SetKills(t, r1, r2, value))
  {
    var u := SetKills(t, r1, r2, value);
    forall x, y | x in u && y in u && u[x].kills.Some? && u[y].useOnly.Some?
      ensures y in u[x].kills.value <==> x in u[y].useOnly.value
    {
      assert y in t[x].kills.value <==> x in t[y].useOnly.value;
      assert KillSet(u[x]) == u[x].kills.value && UseSet(u[y]) == u[y].useOnly.value;
      if value {
        if x == r1 && y == r2 {
        } else {
          assert x != r1 ==> KillSet(u[x]) == KillSet(t[x]);
          assert y != r2 ==> UseSet(u[y]) == UseSet(t[y]);
        }
      } else if t[r1].kills.Some? && t[r2].useOnly.Some? {
        if x == r1 && y == r2 {
        } else {
          assert x != r1 ==> KillSet(u[x]) == KillSet(t[x]);
          assert y != r2 ==> UseSet(u[y]) == UseSet(t[y]);
        }
      }
    }
  }

  /**
   * Removing a kill that adding created restores the table, provided neither
   * bit was set before and both vectors exist.
   */
  lemma RemoveUndoesAdd(t: Table, r1: nat, r2: nat)
    requires r1 in t && r2 in t
    requires t[r1].kills.Some? && t[r2].useOnly.Some?
    requires r2 !in KillSet(t[r1]) && r1 !in UseSet(t[r2])
    ensures RemoveKills(AddKills(t, r1, r2), r1, r2) == t
  {
    var u := RemoveKills(AddKills(t, r1, r2), r1, r2);
    forall r | r in t
      ensures u[r] == t[r]
    {
      assert KillSet(u[r]) == KillSet(t[r]);
      assert UseSet(u[r]) == UseSet(t[r]);
    }
  }

  // ---------------------------------------------------------------------------
  // setAlias for the two symbol-reference alias sets

  /** Which alias set of a symbol reference an interface object stands for. */
  datatype AliasSetKind = UseDefAliasSet | UseOnlyAliasSet

  /**
   * The use/def `setAlias(b, value)` on `a`'s alias set: `a` kills `b`, and
   * when neither is a method `b` kills `a` as well; a null `b` is ignored.
   */
  function UseDefSetAlias(t: Table, a: nat, b: Option<nat>, value: bool): (u: Table)
    requires a in t && (b.Some? ==> b.value in t)
    ensures SameShape(t, u)
    ensures b.None? ==> u == t
    ensures b.Some? && value && t[a].kills.Some? ==> b.value in KillSet(u[a])
    ensures b.Some? && value && !t[a].isMethod && !t[b.value].isMethod && t[b.value].kills.Some? ==>
              a in KillSet(u[b.value])
    ensures b.Some? && (t[a].isMethod || t[b.value].isMethod) && b.value != a ==>
              KillSet(u[b.value]) == KillSet(t[b.value])
    ensures b.Some? && !value && t[a].kills.Some? && t[b.value].useOnly.Some? ==> b.value !in KillSet(u[a])
    ensures value ==> forall r | r in t :: KillSet(t[r]) <= KillSet(u[r])
  {
    if b.None? then t
    else
      var t1 := SetKills(t, a, b.value, value);
      if !t[a].isMethod && !t[b.value].isMethod then SetKills(t1, b.value, a, value) else t1
  }

  /**
   * The use-only `setAlias(b, value)` on `a`'s alias set. Each of the four
   * method/non-method combinations is recorded the same way: `b` kills `a`.
   */
  function UseOnlySetAlias(t: Table, a: nat, b: Option<nat>, value: bool): (u: Table)
    requires a in t && (b.Some? ==> b.value in t)
    ensures b.Some? ==> u == UseDefSetAlias(t, b.value, Some(a), value)
    ensures b.None? ==> u == t
  {
    if b.None? then t
    else if t[a].isMethod && !t[b.value].isMethod then UseDefSetAlias(t, b.value, Some(a), value)
    else if !t[a].isMethod && t[b.value].isMethod then UseDefSetAlias(t, b.value, Some(a), value)
    else if !t[a].isMethod && !t[b.value].isMethod then UseDefSetAlias(t, b.value, Some(a), value)
    else UseDefSetAlias(t, b.value, Some(a), value)
  }

  function SetAlias(kind: AliasSetKind, t: Table, a: nat, b: Option<nat>, value: bool): (u: Table)
    requires a in t && (b.Some? ==> b.value in t)
    ensures SameShape(t, u)
    ensures b.None? ==> u == t
  {
    match kind
    case UseDefAliasSet => UseDefSetAlias(t, a, b, value)
    case UseOnlyAliasSet => UseOnlySetAlias(t, a, b, value)
  }

  /** Every `setAlias`, of either kind, keeps the vectors mirrored. */
  lemma SetAliasKeepsMirror(kind: AliasSetKind, t: Table, a: nat, b: Option<nat>, value: bool)
    requires a in t && (b.Some? ==> b.value in t)
    requires Mirrored(t)
    ensures Mirrored(SetAlias(kind, t, a, b, value))
  {
    if b.Some? {
      var (x, y) := if kind.UseDefAliasSet? then (a, b.value) else (b.value, a);
      SetKillsKeepsMirror(t, x, y, value);
      var t1 := SetKills(t, x, y, value);
      if !t[x].isMethod && !t[y].isMethod {
        SetKillsKeepsMirror(t1, y, x, value);
      }
    }
  }

  /** References listed as valid: each looked-up reference is in the table. */
  predicate Listed(t: Table, refs: seq<Option<nat>>)
  {
    forall i | 0 <= i < |refs| :: refs[i].Some? ==> refs[i].value in t
  }

  /**
   * `setAliases`: `setAlias` for each reference number of the vector, in
   * increasing order; `refs` holds the table's lookups of those numbers.
   */
  function SetAliases(kind: AliasSetKind, t: Table, a: nat, refs: seq<Option<nat>>, value: bool): (u: Table)
    requires a in t && Listed(t, refs)
    ensures SameShape(t, u)
    decreases |refs|
  {
    if |refs| == 0 then t
    else SetAliases(kind, SetAlias(kind, t, a, refs[0], value), a, refs[1..], value)
  }

  /** `addAliases` on a use/def alias set kills every listed reference. */
  lemma {:induction false} AddAliasesKillsEach(t: Table, a: nat, refs: seq<Option<nat>>)
    requires a in t && Listed(t, refs)
    requires t[a].kills.Some?
    ensures var u := SetAliases(UseDefAliasSet, t, a, refs, true);
            forall i | 0 <= i < |refs| && refs[i].Some? :: refs[i].value in KillSet(u[a])
  {
    if |refs| > 0 {
      var t1 := SetAlias(UseDefAliasSet, t, a, refs[0], true);
      assert Listed(t1, refs[1..]) by {
        forall i | 0 <= i < |refs[1..]| && refs[1..][i].Some?
          ensures refs[1..][i].value in t1
        {
          assert refs[1..][i] == refs[i + 1];
        }
      }
      AddAliasesKillsEach(t1, a, refs[1..]);
      AddAliasesOnlyGrow(t1, a, refs[1..]);
      var u := SetAliases(UseDefAliasSet, t, a, refs, true);
      forall i | 0 <= i < |refs| && refs[i].Some?
        ensures refs[i].value in KillSet(u[a])
      {
        if i > 0 {
          assert refs[i] == refs[1..][i - 1];
        }
      }
    }
  }

  /** `addAliases` never takes a reference out of a kill set. */
  lemma {:induction false} AddAliasesOnlyGrow(t: Table, a: nat, refs: seq<Option<nat>>)
    requires a in t && Listed(t, refs)
    ensures var u := SetAliases(UseDefAliasSet, t, a, refs, true);
            forall r | r in t :: KillSet(t[r]) <= KillSet(u[r])
  {
    if |refs| > 0 {
      var t1 := SetAlias(UseDefAliasSet, t, a, refs[0], true);
      assert Listed(t1, refs[1..]) by {
        forall i | 0 <= i < |refs[1..]| && refs[1..][i].Some?
          ensures refs[1..][i].value in t1
        {
          assert refs[1..][i] == refs[i + 1];
        }
      }
      AddAliasesOnlyGrow(t1, a, refs[1..]);
    }
  }

  /** After one `setAlias`, the rest of the references are still listed. */
  lemma ListedTail(t: Table, u: Table, refs: seq<Option<nat>>)
    requires |refs| > 0 && Listed(t, refs) && SameShape(t, u)
    ensures Listed(u, refs[1..])
  {
    forall i | 0 <= i < |refs[1..]| && refs[1..][i].Some?
      ensures refs[1..][i].value in u
    {
      assert refs[1..][i] == refs[i + 1];
    }
  }

  /** `setAliases`, adding or removing, keeps the vectors mirrored. */
  lemma {:induction false} SetAliasesKeepsMirror(kind: AliasSetKind, t: Table, a: nat,
                                                 refs: seq<Option<nat>>, value: bool)
    requires a in t && Listed(t, refs)
    requires Mirrored(t)
    ensures Mirrored(SetAliases(kind, t, a, refs, value))
    decreases |refs|
  {
    if |refs| > 0 {
      var t1 := SetAlias(kind, t, a, refs[0], value);
      SetAliasKeepsMirror(kind, t, a, refs[0], value);
      ListedTail(t, t1, refs);
      SetAliasesKeepsMirror(kind, t1, a, refs[1..], value);
    }
  }

  /** Removing one kill never adds a reference to any kill set. */
  lemma RemoveKillsOnlyShrinks(t: Table, r1: nat, r2: nat)
    requires r1 in t && r2 in t
    ensures var u := RemoveKills(t, r1, r2);
            forall r | r in t :: KillSet(u[r]) <= KillSet(t[r])
  {
  }

  /** The use/def `setAlias(b, false)` never adds a reference to any kill set. */
  lemma RemoveAliasOnlyShrinks(t: Table, a: nat, b: Option<nat>)
    requires a in t && (b.Some? ==> b.value in t)
    ensures var u := UseDefSetAlias(t, a, b, false);
            forall r | r in t :: KillSet(u[r]) <= KillSet(t[r])
  {
    if b.Some? {
      var t1 := SetKills(t, a, b.value, false);
      RemoveKillsOnlyShrinks(t, a, b.value);
      RemoveKillsOnlyShrinks(t1, b.value, a);
    }
  }

  /** `removeAliases` never adds a reference to a kill set. */
  lemma {:induction false} RemoveAliasesOnlyShrink(t: Table, a: nat, refs: seq<Option<nat>>)
    requires a in t && Listed(t, refs)
    ensures var u := SetAliases(UseDefAliasSet, t, a, refs, false);
            forall r | r in t :: KillSet(u[r]) <= KillSet(t[r])
    decreases |refs|
  {
    if |refs| > 0 {
      var t1 := SetAlias(UseDefAliasSet, t, a, refs[0], false);
      RemoveAliasOnlyShrinks(t, a, refs[0]);
      ListedTail(t, t1, refs);
      RemoveAliasesOnlyShrink(t1, a, refs[1..]);
    }
  }

  /**
   * `removeAliases` on a use/def alias set: `a` no longer kills any listed
   * reference whose use-only vector exists.
   */
  lemma {:induction false} RemoveAliasesClearsEach(t: Table, a: nat, refs: seq<Option<nat>>)
    requires a in t && Listed(t, refs)
    requires t[a].kills.Some?
    ensures var u := SetAliases(UseDefAliasSet, t, a, refs, false);
            forall i | 0 <= i < |refs| && refs[i].Some? && t[refs[i].value].useOnly.Some? ::
              refs[i].value !in KillSet(u[a])
    decreases |refs|
  {
    if |refs| > 0 {
      var t1 := SetAlias(UseDefAliasSet, t, a, refs[0], false);
      ListedTail(t, t1, refs);
      RemoveAliasesClearsEach(t1, a, refs[1..]);
      RemoveAliasesOnlyShrink(t1, a, refs[1..]);
      var u := SetAliases(UseDefAliasSet, t, a, refs, false);
      forall i | 0 <= i < |refs| && refs[i].Some? && t[refs[i].value].useOnly.Some?
        ensures refs[i].value !in KillSet(u[a])
      {
        if i > 0 {
          assert refs[i] == refs[1..][i - 1];
        }
      }
    }
  }

  // ---------------------------------------------------------------------------
  // Alias containers and the query operations

  /**
   * `TR_BitContainer`: one reference number, or a bit vector that may be
   * absent (the empty container).
   */
  datatype BitContainer = Single(x: nat) | Vector(bits: Option<set<nat>>)

  /** The references a container holds. */
  function Elements(bc: BitContainer): set<nat>
  {
    match bc
    case Single(x) => {x}
    case Vector(None) => {}
    case Vector(Some(s)) => s
  }

  /** The use/def or use-only aliases of a symbol reference, as a container. */
  function SymbolAliases(kind: AliasSetKind, s: SymRef): (bc: BitContainer)
    ensures kind.UseDefAliasSet? ==> Elements(bc) == KillSet(s)
    ensures kind.UseOnlyAliasSet? ==> Elements(bc) == UseSet(s)
  {
    match kind
    case UseDefAliasSet => Vector(s.kills)
    case UseOnlyAliasSet => Vector(s.useOnly)
  }

  /** The facts about a node that decide its alias containers. */
  datatype NodeFacts = NodeFacts(hasSymbolReference: bool, isLikeUse: bool, isLikeDef: bool,
                                 mightHaveVolatileSymbolReference: bool, sharesSymbol: bool,
                                 referenceNumber: nat, symbol: SymRef)

  /** A node's may-use aliases: its symbol's use-only aliases if it is a use, else empty. */
  function MayUseAliases(n: NodeFacts): (bc: BitContainer)
    ensures Elements(bc) == if n.isLikeUse && n.hasSymbolReference then UseSet(n.symbol) else {}
  {
    if n.isLikeUse && n.hasSymbolReference then SymbolAliases(UseOnlyAliasSet, n.symbol)
    else Vector(None)
  }

  /**
   * A node's may-kill aliases: for a def (or a possibly volatile access) its
   * symbol's kill set when the symbol is shared, or just its own reference.
   */
  function MayKillAliases(n: NodeFacts): (bc: BitContainer)
    ensures var counts := n.hasSymbolReference && (n.isLikeDef || n.mightHaveVolatileSymbolReference);
            && (!counts ==> Elements(bc) == {})
            && (counts && n.sharesSymbol ==> Elements(bc) == KillSet(n.symbol))
            && (counts && !n.sharesSymbol ==> Elements(bc) == {n.referenceNumber})
  {
    if n.hasSymbolReference && (n.isLikeDef || n.mightHaveVolatileSymbolReference) then
      if n.sharesSymbol then SymbolAliases(UseDefAliasSet, n.symbol) else Single(n.referenceNumber)
    else Vector(None)
  }

  /** `getAliases`: the caller's vector becomes the aliases; true when nonempty. */
  function GetAliases(bc: BitContainer): (r: (set<nat>, bool))
    ensures r.0 == Elements(bc)
    ensures r.1 <==> Elements(bc) != {}
  {
    var v := match bc
      case Single(x) => {x}
      case Vector(None) => {}
      case Vector(Some(s)) => s;
    (v, v != {})
  }

  /** `getAliasesAndUnionWith`: true when the union is nonempty. */
  function UnionWith(bc: BitContainer, v: set<nat>): (r: (set<nat>, bool))
    ensures r.0 == v + Elements(bc)
    ensures r.1 <==> v != {} || Elements(bc) != {}
  {
    var w := v + GetAliases(bc).0;
    (w, w != {})
  }

  /**
   * `getAliasesAndSubtractFrom`: only bit `x` is cleared for a single value,
   * the vector's bits otherwise, and nothing when the vector is absent.
   */
  function SubtractFrom(bc: BitContainer, v: set<nat>): (r: (set<nat>, bool))
    ensures r.0 == v - Elements(bc)
    ensures r.1 <==> r.0 != {}
  {
    var w := match bc
      case Single(x) => v - {x}
      case Vector(None) => v
      case Vector(Some(s)) => v - s;
    (w, w != {})
  }

  /**
   * `getAliasesAndIntersectWith` as written: for a single value `v` keeps at
   * most that bit, for a vector `v` is intersected with it, and when the
   * vector is absent `v` is left as it was.
   */
  function IntersectWithAsWritten(bc: BitContainer, v: set<nat>): (r: (set<nat>, bool))
    ensures bc.Single? ==> r.0 == v * {bc.x}
    ensures bc.Vector? && bc.bits.Some? ==> r.0 == v * bc.bits.value
    ensures bc == Vector(None) ==> r.0 == v
    ensures r.1 <==> r.0 != {}
  {
    var w := match bc
      case Single(x) => if x in v then {x} else {}
      case Vector(None) => v
      case Vector(Some(s)) => v * s;
    (w, w != {})
  }

  /**
   * Intersecting with the empty container leaves a nonempty vector nonempty,
   * although `containsAny` on the same container says no element is shared.
   */
  lemma IntersectWithEmptyKeepsVector()
    ensures IntersectWithAsWritten(Vector(None), {1}) == ({1}, true)
    ensures !ContainsAny(Vector(None), {1})
    ensures Elements(Vector(None)) * {1} == {}
  {
  }

  /** `getAliasesAndIntersectWith` with the absent vector read as empty. */
  function IntersectWith(bc: BitContainer, v: set<nat>): (r: (set<nat>, bool))
    ensures r.0 == v * Elements(bc)
    ensures r.1 <==> r.0 != {}
  {
    var w := match bc
      case Single(x) => if x in v then {x} else {}
      case Vector(None) => {}
      case Vector(Some(s)) => v * s;
    (w, w != {})
  }

  /** `contains`: whether the container holds the reference number. */
  function Contains(bc: BitContainer, refNum: nat): (r: bool)
    ensures r <==> refNum in Elements(bc)
  {
    match bc
    case Single(x) => x == refNum
    case Vector(bits) => bits.Some? && refNum in bits.value
  }

  /**
   * `containsAny`: membership of the single value, false for an absent
   * vector, and whether the vectors intersect otherwise.
   */
  function ContainsAny(bc: BitContainer, refs: set<nat>): (r: bool)
    ensures r <==> refs * Elements(bc) != {}
  {
    match bc
    case Single(x) =>
      assert x in refs ==> x in refs * {x};
      x in refs
    case Vector(None) => false
    case Vector(Some(s)) => refs * s != {}
  }

  /** `isZero`: whether the container is empty. */
  function IsZero(bc: BitContainer): (r: bool)
    ensures r <==> Elements(bc) == {}
  {
    match bc
    case Single(_) => false
    case Vector(bits) => bits.None? || bits.value == {}
  }

  /** `hasMoreThanOneElement` of a container. */
  function HasMoreThanOneElement(bc: BitContainer): bool
  {
    match bc
    case Single(_) => false
    case Vector(bits) => bits.Some? && |bits.value| > 1
  }

  /** `hasAliases`: the container is nonempty and has more than one element. */
  function HasAliases(bc: BitContainer): (r: bool)
    ensures r <==> |Elements(bc)| > 1
  {
    assert bc.Single? ==> |Elements(bc)| == 1;
    !IsZero(bc) && HasMoreThanOneElement(bc)
  }

  /** The corrected intersection answers exactly as `containsAny` does. */
  lemma IntersectAgreesWithContainsAny(bc: BitContainer, v: set<nat>)
    ensures IntersectWith(bc, v).1 <==> ContainsAny(bc, v)
    ensures bc != Vector(None) ==> IntersectWithAsWritten(bc, v) == IntersectWith(bc, v)
  {
  }

  /** Intersecting and subtracting split the caller's vector into two disjoint parts. */
  lemma IntersectAndSubtractSplit(bc: BitContainer, v: set<nat>)
    ensures IntersectWith(bc, v).0 + SubtractFrom(bc, v).0 == v
    ensures IntersectWith(bc, v).0 * SubtractFrom(bc, v).0 == {}
  {
  }
}
