/**
 * The code generator's phase driver.
 *
 * A driver walks a fixed, platform-supplied list of phase ids (the z list
 * here) and dispatches each id to its handler through a function table. The
 * handlers' own work (instruction selection, register assignment, binary
 * encoding, ...) is not part of this model: it is an uninterpreted step
 * `work` over an opaque code-generator state. What is modelled is the
 * sequencing, the phase each handler reports, the two interruption
 * checkpoints, the code-length estimate check and the phase-name table.
 */
module CodeGenPhases {
  import opened Optional

  /** The phase ids the name table knows, plus any other id value. */
  datatype Phase =
    | ReserveCodeCache
    | LowerTrees
    | SetupForInstructionSelection
    | InstructionSelection
    | CreateStackAtlas
    | RegisterAssigning
    | MapStack
    | Peephole
    | BinaryEncoding
    | EmitSnippets
    | ProcessRelocations
    | FindAndFixCommonedReferences
    | RemoveUnusedLocals
    | ShrinkWrapping
    | InliningReport
    | InsertDebugCounters
    | CleanUpFlags
    | Unknown(code: int)

  /** The z phase list, in the order `performAll` runs it. */
  const PhaseList: seq<Phase> := [
    ReserveCodeCache,
    LowerTrees,
    SetupForInstructionSelection,
    InstructionSelection,
    CreateStackAtlas,
    RegisterAssigning,
    MapStack,
    Peephole,
    BinaryEncoding,
    EmitSnippets,
    ProcessRelocations
  ]

  // ---------------------------------------------------------------------------
  // Names

  /** `getName(phase)`: the phase's name, or nothing for an id without a case. */
  function GetName(p: Phase): (r: Option<string>)
    ensures r.None? <==> p.Unknown?
  {
    match p
    case ReserveCodeCache => Some("ReserveCodeCache")
    case LowerTrees => Some("LowerTrees")
    case SetupForInstructionSelection => Some("SetupForInstructionSelection")
    case InstructionSelection => Some("InstructionSelection")
    case CreateStackAtlas => Some("CreateStackAtlas")
    case RegisterAssigning => Some("RegisterAssigning")
    case MapStack => Some("MapStack")
    case Peephole => Some("Peephole")
    case BinaryEncoding => Some("BinaryEncoding")
    case EmitSnippets => Some("EmitSnippets")
    case ProcessRelocations => Some("ProcessRelocations")
    case FindAndFixCommonedReferences => Some("FindAndFixCommonedReferencesPhase")
    case RemoveUnusedLocals => Some("RemoveUnusedLocalsPhase")
    case ShrinkWrapping => Some("ShrinkWrappingPhase")
    case InliningReport => Some("InliningReportPhase")
    case InsertDebugCounters => Some("InsertDebugCountersPhase")
    case CleanUpFlags => Some("CleanUpFlagsPhase")
    case Unknown(_) => None
  }

  /** Every phase id with a case in `getName`, in the order of the cases. */
  const KnownPhases: seq<Phase> := [
    ReserveCodeCache, LowerTrees, SetupForInstructionSelection, InstructionSelection,
    CreateStackAtlas, RegisterAssigning, MapStack, Peephole, BinaryEncoding, EmitSnippets,
    ProcessRelocations, FindAndFixCommonedReferences, RemoveUnusedLocals, ShrinkWrapping,
    InliningReport, InsertDebugCounters, CleanUpFlags
  ]

  /** The first phase of `ps` that has this name, if any. */
  function FindNamed(ps: seq<Phase>, name: string): (r: Option<Phase>)
    ensures r.Some? ==> r.value in ps && GetName(r.value) == Some(name)
    ensures r.None? ==> forall p | p in ps :: GetName(p) != Some(name)
    decreases |ps|
  {
    if |ps| == 0 then None
    else if GetName(ps[0]) == Some(name) then Some(ps[0])
    else FindNamed(ps[1..], name)
  }

  /** The phase a name belongs to: a search of the name table. */
  function PhaseNamed(name: string): (r: Option<Phase>)
    ensures r.Some? ==> GetName(r.value) == Some(name)
  {
    FindNamed(KnownPhases, name)
  }

  /** Every id with a name is in the table that `PhaseNamed` searches. */
  lemma KnownPhasesAreListed(p: Phase)
    ensures !p.Unknown? <==> p in KnownPhases
  {
  }

  /**
   * A proof device: the known phase whose name has this length and first
   * character. No two names share both, so this pair alone picks the phase.
   */
  ghost function PhaseWithKey(length: int, first: char): Option<Phase>
  {
    match (length, first)
    case (16, 'R') => Some(ReserveCodeCache)
    case (10, 'L') => Some(LowerTrees)
    case (28, 'S') => Some(SetupForInstructionSelection)
    case (20, 'I') => Some(InstructionSelection)
    case (16, 'C') => Some(CreateStackAtlas)
    case (17, 'R') => Some(RegisterAssigning)
    case (8, 'M') => Some(MapStack)
    case (8, 'P') => Some(Peephole)
    case (14, 'B') => Some(BinaryEncoding)
    case (12, 'E') => Some(EmitSnippets)
    case (18, 'P') => Some(ProcessRelocations)
    case (33, 'F') => Some(FindAndFixCommonedReferences)
    case (23, 'R') => Some(RemoveUnusedLocals)
    case (19, 'S') => Some(ShrinkWrapping)
    case (19, 'I') => Some(InliningReport)
    case (24, 'I') => Some(InsertDebugCounters)
    case (17, 'C') => Some(CleanUpFlags)
    case _ => None
  }

  /** A known phase's name determines the phase through its length and first character. */
  lemma NameKeyIdentifiesPhase(p: Phase)
    requires !p.Unknown?
    ensures var n := GetName(p).value; |n| > 0 && PhaseWithKey(|n|, n[0]) == Some(p)
  {
  }

  /** No two known phases share a name. */
  lemma NamesAreDistinct(p: Phase, q: Phase)
    requires !p.Unknown? && !q.Unknown?
    requires p != q
    ensures GetName(p) != GetName(q)
  {
    NameKeyIdentifiesPhase(p);
    NameKeyIdentifiesPhase(q);
  }

  /** Every known phase's name leads back to that phase. */
  lemma {:induction false} NameRoundTrip(p: Phase)
    ensures !p.Unknown? ==> GetName(p).Some? && PhaseNamed(GetName(p).value) == Some(p)
  {
    if !p.Unknown? {
      KnownPhasesAreListed(p);
      var r := PhaseNamed(GetName(p).value);
      assert r.Some?;
      if r.value != p {
        NamesAreDistinct(r.value, p);
      }
    }
  }

  /** `PhaseNamed` is exactly the inverse of `getName`. */
  lemma PhaseNamedIsInverse(name: string, p: Phase)
    ensures PhaseNamed(name) == Some(p) <==> GetName(p) == Some(name)
  {
    NameRoundTrip(p);
  }

  // ---------------------------------------------------------------------------
  // The phase list

  predicate Distinct<T(==)>(s: seq<T>)
  {
    forall i, j :: 0 <= i < j < |s| ==> s[i] != s[j]
  }

  /** Where a phase sits in the z list, if it is listed. */
  function Position(p: Phase): Option<nat>
  {
    match p
    case ReserveCodeCache => Some(0)
    case LowerTrees => Some(1)
    case SetupForInstructionSelection => Some(2)
    case InstructionSelection => Some(3)
    case CreateStackAtlas => Some(4)
    case RegisterAssigning => Some(5)
    case MapStack => Some(6)
    case Peephole => Some(7)
    case BinaryEncoding => Some(8)
    case EmitSnippets => Some(9)
    case ProcessRelocations => Some(10)
    case _ => None
  }

  /**
   * `getListSize` is 11; the list runs from code-cache reservation to
   * relocation processing, every entry has a name, and `Position` inverts
   * the list, so no phase is listed twice.
   */
  lemma PhaseListShape()
    ensures |PhaseList| == 11
    ensures PhaseList[0] == ReserveCodeCache && PhaseList[10] == ProcessRelocations
    ensures forall i :: 0 <= i < |PhaseList| ==> GetName(PhaseList[i]).Some?
    ensures forall i :: 0 <= i < |PhaseList| ==> Position(PhaseList[i]) == Some(i)
    ensures forall p :: Position(p).Some? ==> Position(p).value < |PhaseList| && PhaseList[Position(p).value] == p
    ensures Distinct(PhaseList)
  {
    forall i, j | 0 <= i < j < |PhaseList|
      ensures PhaseList[i] != PhaseList[j]
    {
      assert Position(PhaseList[i]) != Position(PhaseList[j]);
    }
  }

  /** Every listed id has a handler in the function table. */
  lemma PhaseListKnown()
    ensures AllKnown(PhaseList)
  {
  }

  /** Whether `p` is listed strictly before `q`. */
  predicate Before(p: Phase, q: Phase)
  {
    Position(p).Some? && Position(q).Some? && Position(p).value < Position(q).value
  }

  /** The order of the z list, including both checkpoints before binary encoding. */
  lemma PhaseListOrder()
    ensures Before(LowerTrees, SetupForInstructionSelection)
    ensures Before(SetupForInstructionSelection, InstructionSelection)
    ensures Before(InstructionSelection, CreateStackAtlas)
    ensures Before(CreateStackAtlas, RegisterAssigning)
    ensures Before(RegisterAssigning, MapStack)
    ensures Before(MapStack, Peephole)
    ensures Before(Peephole, BinaryEncoding)
    ensures Before(BinaryEncoding, EmitSnippets)
    ensures Before(EmitSnippets, ProcessRelocations)
    ensures Before(InstructionSelection, BinaryEncoding)
    ensures Before(RegisterAssigning, BinaryEncoding)
  {
  }

  // ---------------------------------------------------------------------------
  // Handlers

  /** The two points at which a compilation may be interrupted. */
  datatype Context = AfterInstructionSelection | AfterRegisterAssignment

  /** The generated code's lengths and the estimates the buffer was sized by. */
  datatype CodeLengths = CodeLengths(warm: int, cold: int, estimatedWarm: int, estimatedCold: int)

  /** The code fits the estimated lengths (asserted after relocation processing). */
  predicate WithinEstimates(l: CodeLengths)
  {
    l.warm <= l.estimatedWarm && l.cold <= l.estimatedCold
  }

  /**
   * What the handlers depend on but this model does not define: each
   * handler's work on the code generator, the compilation's interruption
   * predicate, and the code lengths a state has.
   */
  datatype Env<!S> = Env(work: (Phase, S) -> S, interrupted: (Context, S) -> bool, lengths: S -> CodeLengths)

  /** The driver's own state (`_currentPhase`) next to the code generator's. */
  datatype Driver<S> = Driver(current: Phase, cg: S)

  /** How a run of the driver ended. */
  datatype Outcome = Completed | Interrupted(at: Phase) | EstimateExceeded

  /** Whether `p`'s handler calls `reportPhase` with its own id. */
  predicate Reports(p: Phase)
  {
    p in {ProcessRelocations, EmitSnippets, BinaryEncoding, Peephole, RegisterAssigning,
          InstructionSelection, SetupForInstructionSelection, LowerTrees, RemoveUnusedLocals}
  }

  /**
   * The handler the function table holds for `p`: report the phase if the
   * handler does, do the work, then check this handler's checkpoint or, for
   * relocation processing, the estimate.
   */
  function Perform<S>(p: Phase, d: Driver<S>, env: Env<S>): (r: (Driver<S>, Outcome))
    requires !p.Unknown?
    ensures r.0.current == (if Reports(p) then p else d.current)
    ensures r.1.Interrupted? ==> r.1.at == p
    ensures r.1.Interrupted? <==>
              || (p == InstructionSelection && env.interrupted(AfterInstructionSelection, r.0.cg))
              || (p == RegisterAssigning && env.interrupted(AfterRegisterAssignment, r.0.cg))
    ensures r.1.EstimateExceeded? <==> p == ProcessRelocations && !WithinEstimates(env.lengths(r.0.cg))
  {
    var reported := if Reports(p) then p else d.current;
    var cg := env.work(p, d.cg);
    var outcome :=
      match p
      case InstructionSelection =>
        if env.interrupted(AfterInstructionSelection, cg) then Interrupted(p) else Completed
      case RegisterAssigning =>
        if env.interrupted(AfterRegisterAssignment, cg) then Interrupted(p) else Completed
      case ProcessRelocations =>
        if WithinEstimates(env.lengths(cg)) then Completed else EstimateExceeded
      case _ => Completed;
    (Driver(reported, cg), outcome)
  }

  /** `getName()`: the name of the phase last reported. */
  function CurrentName<S>(d: Driver<S>): (r: Option<string>)
    ensures r.None? <==> d.current.Unknown?
    ensures r.Some? ==> PhaseNamed(r.value) == Some(d.current)
  {
    NameRoundTrip(d.current);
    GetName(d.current)
  }

  // ---------------------------------------------------------------------------
  // The driver

  /** A run so far: the driver state, the phases dispatched, and how it stands. */
  datatype Run<S> = Run(driver: Driver<S>, trace: seq<Phase>, outcome: Outcome)

  /** Every entry of `ps` has a handler. */
  predicate AllKnown(ps: seq<Phase>)
  {
    forall i :: 0 <= i < |ps| ==> !ps[i].Unknown?
  }

  /** The reference semantics: the first `n` entries of `ps`, stopping at the first throw. */
  function RunPrefix<S>(ps: seq<Phase>, n: nat, d: Driver<S>, env: Env<S>): Run<S>
    requires n <= |ps|
    requires AllKnown(ps)
  {
    if n == 0 then Run(d, [], Completed)
    else
      var r := RunPrefix(ps, n - 1, d, env);
      if !r.outcome.Completed? then r
      else
        var (d', outcome) := Perform(ps[n - 1], r.driver, env);
        Run(d', r.trace + [ps[n - 1]], outcome)
  }

  /** The phase `_currentPhase` holds after dispatching `trace` from `init`. */
  function LastReported(trace: seq<Phase>, init: Phase): Phase
  {
    if |trace| == 0 then init
    else if Reports(trace[|trace| - 1]) then trace[|trace| - 1]
    else LastReported(trace[..|trace| - 1], init)
  }

  /** A run dispatches a prefix of the list, all of it unless a handler threw. */
  lemma {:induction false} RunDispatchesPrefix<S>(ps: seq<Phase>, n: nat, d: Driver<S>, env: Env<S>)
    requires n <= |ps|
    requires AllKnown(ps)
    ensures var r := RunPrefix(ps, n, d, env);
            && |r.trace| <= n
            && r.trace == ps[..|r.trace|]
            && (r.outcome.Completed? ==> |r.trace| == n)
  {
    if n > 0 {
      RunDispatchesPrefix(ps, n - 1, d, env);
      var r := RunPrefix(ps, n - 1, d, env);
      if r.outcome.Completed? {
        assert r.trace + [ps[n - 1]] == ps[..n];
      }
    }
  }

  /**
   * A run stops only right after a handler that threw: an interruption at a
   * checkpoint, or the estimate check after relocation processing.
   */
  lemma {:induction false} RunStopsAtThrow<S>(ps: seq<Phase>, n: nat, d: Driver<S>, env: Env<S>)
    requires n <= |ps|
    requires AllKnown(ps)
    ensures var r := RunPrefix(ps, n, d, env);
            && (r.outcome.Interrupted? ==>
                  && |r.trace| > 0
                  && r.outcome.at == r.trace[|r.trace| - 1]
                  && (r.outcome.at == InstructionSelection || r.outcome.at == RegisterAssigning))
            && (r.outcome.EstimateExceeded? ==> |r.trace| > 0 && r.trace[|r.trace| - 1] == ProcessRelocations)
  {
    if n > 0 {
      RunStopsAtThrow(ps, n - 1, d, env);
    }
  }

  /** `_currentPhase` after a run is the last reporting phase it dispatched. */
  lemma {:induction false} RunReportsLast<S>(ps: seq<Phase>, n: nat, d: Driver<S>, env: Env<S>)
    requires n <= |ps|
    requires AllKnown(ps)
    ensures var r := RunPrefix(ps, n, d, env);
            r.driver.current == LastReported(r.trace, d.current)
  {
    if n > 0 {
      RunReportsLast(ps, n - 1, d, env);
      var r := RunPrefix(ps, n - 1, d, env);
      if r.outcome.Completed? {
        var t := r.trace + [ps[n - 1]];
        assert t[..|t| - 1] == r.trace;
      }
    }
  }

  /**
   * `performAll`: dispatch every entry of the phase list in order until a
   * handler throws. Returns the final state, the phases dispatched and the
   * outcome.
   */
  method PerformAll<S>(d0: Driver<S>, env: Env<S>) returns (d: Driver<S>, trace: seq<Phase>, outcome: Outcome)
    ensures RunPrefix(PhaseList, |PhaseList|, d0, env) == Run(d, trace, outcome)
    ensures |trace| <= |PhaseList| && trace == PhaseList[..|trace|]
    ensures outcome.Completed? ==> trace == PhaseList
    ensures outcome.Interrupted? ==>
              && (outcome.at == InstructionSelection || outcome.at == RegisterAssigning)
              && |trace| > 0 && trace[|trace| - 1] == outcome.at
              && BinaryEncoding !in trace
    ensures outcome.EstimateExceeded? ==> trace == PhaseList
    ensures d.current == LastReported(trace, d0.current)
  {
    PhaseListKnown();
    d, trace, outcome := d0, [], Completed;
    var i := 0;
    while i < |PhaseList| && outcome.Completed?
      invariant i <= |PhaseList|
      invariant RunPrefix(PhaseList, i, d0, env) == Run(d, trace, outcome)
      invariant outcome.Completed? ==> trace == PhaseList[..i]
    {
      var phaseToDo := PhaseList[i];
      RunPrefixExtends(PhaseList, i, d0, env);
      trace := trace + [phaseToDo];
      var step := Perform(phaseToDo, d, env);
      d, outcome := step.0, step.1;
      i := i + 1;
    }
    StoppedRunStaysStopped(PhaseList, i, |PhaseList|, d0, env);
    WholeListRun(d0, env);
  }

  /** One more entry after a run that has not thrown is one more handler call. */
  lemma RunPrefixExtends<S>(ps: seq<Phase>, n: nat, d: Driver<S>, env: Env<S>)
    requires n < |ps| && AllKnown(ps)
    requires RunPrefix(ps, n, d, env).outcome.Completed?
    ensures var r := RunPrefix(ps, n, d, env);
            var step := Perform(ps[n], r.driver, env);
            RunPrefix(ps, n + 1, d, env) == Run(step.0, r.trace + [ps[n]], step.1)
  {
  }

  /** What a run over the whole phase list dispatches, and how it can stop. */
  lemma WholeListRun<S>(d0: Driver<S>, env: Env<S>)
    ensures var r := RunPrefix(PhaseList, |PhaseList|, d0, env);
            && |r.trace| <= |PhaseList| && r.trace == PhaseList[..|r.trace|]
            && (r.outcome.Completed? ==> r.trace == PhaseList)
            && (r.outcome.Interrupted? ==>
                  && (r.outcome.at == InstructionSelection || r.outcome.at == RegisterAssigning)
                  && |r.trace| > 0 && r.trace[|r.trace| - 1] == r.outcome.at
                  && BinaryEncoding !in r.trace)
            && (r.outcome.EstimateExceeded? ==> r.trace == PhaseList)
            && r.driver.current == LastReported(r.trace, d0.current)
  {
    var r := RunPrefix(PhaseList, |PhaseList|, d0, env);
    RunDispatchesPrefix(PhaseList, |PhaseList|, d0, env);
    RunStopsAtThrow(PhaseList, |PhaseList|, d0, env);
    RunReportsLast(PhaseList, |PhaseList|, d0, env);
    if r.outcome.Interrupted? {
      CheckpointsPrecedeEncoding(r.trace);
    }
  }

  /** Once a run has thrown, dispatching further entries changes nothing. */
  lemma {:induction false} StoppedRunStaysStopped<S>(ps: seq<Phase>, i: nat, n: nat, d: Driver<S>, env: Env<S>)
    requires i <= n <= |ps|
    requires AllKnown(ps)
    requires i == n || !RunPrefix(ps, i, d, env).outcome.Completed?
    ensures RunPrefix(ps, n, d, env) == RunPrefix(ps, i, d, env)
    decreases n - i
  {
    if i < n {
      StoppedRunStaysStopped(ps, i, n - 1, d, env);
    }
  }

  /** A dispatched prefix of the list that ends at a checkpoint never reached binary encoding. */
  lemma CheckpointsPrecedeEncoding(trace: seq<Phase>)
    requires 0 < |trace| <= |PhaseList|
    requires trace == PhaseList[..|trace|]
    requires trace[|trace| - 1] == InstructionSelection || trace[|trace| - 1] == RegisterAssigning
    ensures BinaryEncoding !in trace
  {
    var k := |trace| - 1;
    assert PhaseList[k] == trace[k];
    assert k == 3 || k == 5;
    forall j | 0 <= j < |trace|
      ensures trace[j] != BinaryEncoding
    {
      assert trace[j] == PhaseList[j];
    }
  }

  // ---------------------------------------------------------------------------
  // Snippet length

  /**
   * The snippet-length loop of the snippet-emission phase: each snippet's
   * length is asked for at the estimated start plus the lengths of the
   * snippets before it. Returns the offsets queried and the total length.
   */
  method EstimatedSnippetLength<T>(snippets: seq<T>, start: int, getLength: (T, int) -> int)
    returns (queried: seq<int>, length: int)
    ensures |queried| == |snippets|
    ensures |snippets| > 0 ==> queried[0] == start
    ensures forall k :: 0 <= k < |snippets| - 1 ==> queried[k + 1] == queried[k] + getLength(snippets[k], queried[k])
    ensures |snippets| == 0 ==> length == 0
    ensures |snippets| > 0 ==>
              length == queried[|snippets| - 1] + getLength(snippets[|snippets| - 1], queried[|snippets| - 1]) - start
  {
    var estimatedSnippetStart := start;
    queried := [];
    var i := 0;
    while i < |snippets|
      invariant i <= |snippets|
      invariant |queried| == i
      invariant i > 0 ==> queried[0] == start
      invariant forall k :: 0 <= k < i - 1 ==> queried[k + 1] == queried[k] + getLength(snippets[k], queried[k])
      invariant i == 0 ==> estimatedSnippetStart == start
      invariant i > 0 ==> estimatedSnippetStart == queried[i - 1] + getLength(snippets[i - 1], queried[i - 1])
    {
      queried := queried + [estimatedSnippetStart];
      estimatedSnippetStart := estimatedSnippetStart + getLength(snippets[i], estimatedSnippetStart);
      i := i + 1;
    }
    length := estimatedSnippetStart - start;
  }

  /** The sum of `lengths`. */
  function Sum(lengths: seq<int>): int
  {
    if |lengths| == 0 then 0 else Sum(lengths[..|lengths| - 1]) + lengths[|lengths| - 1]
  }

  /**
   * When no snippet's length depends on where it lands, the loop's total is
   * the plain sum of the lengths.
   */
  lemma {:induction false} OffsetIndependentSnippetLength<T>(snippets: seq<T>, start: int, getLength: (T, int) -> int,
                                                             queried: seq<int>, length: int, lengths: seq<int>)
    requires |lengths| == |snippets| == |queried|
    requires forall k, x :: 0 <= k < |snippets| ==> getLength(snippets[k], x) == lengths[k]
    requires |snippets| > 0 ==> queried[0] == start
    requires forall k :: 0 <= k < |snippets| - 1 ==> queried[k + 1] == queried[k] + getLength(snippets[k], queried[k])
    requires |snippets| == 0 ==> length == 0
    requires |snippets| > 0 ==>
               length == queried[|snippets| - 1] + getLength(snippets[|snippets| - 1], queried[|snippets| - 1]) - start
    ensures length == Sum(lengths)
  {
    var n := |snippets|;
    if n > 0 {
      QueriedOffsetsAreSums(snippets, start, getLength, queried, lengths, n - 1);
    }
  }

  /** The `k`-th queried offset is the start plus the first `k` lengths. */
  lemma {:induction false} QueriedOffsetsAreSums<T>(snippets: seq<T>, start: int, getLength: (T, int) -> int,
                                                    queried: seq<int>, lengths: seq<int>, k: nat)
    requires |lengths| == |snippets| == |queried|
    requires k < |snippets|
    requires forall j, x :: 0 <= j < |snippets| ==> getLength(snippets[j], x) == lengths[j]
    requires queried[0] == start
    requires forall j :: 0 <= j < |snippets| - 1 ==> queried[j + 1] == queried[j] + getLength(snippets[j], queried[j])
    ensures queried[k] == start + Sum(lengths[..k])
  {
    if k > 0 {
      QueriedOffsetsAreSums(snippets, start, getLength, queried, lengths, k - 1);
      assert lengths[..k][..k - 1] == lengths[..k - 1];
    }
  }
}
