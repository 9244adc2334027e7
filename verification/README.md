# OMR compiler core: a Dafny model

This project models, in Dafny, the small self-contained cores of the OMR
compiler technology and proves properties about them:

- the GC **stack-atlas encoder** of the test compiler's front end. It sizes
  the atlas, writes the header, coalesces identical adjacent stack maps and
  lays the remaining maps backwards from the end of the buffer;
- the **code-generation phase driver**: the z phase list, the phase-name
  table, the interruption checkpoints, the code-length assertion and the
  snippet-length accumulation;
- the **ARM real-register enumeration**, in both the VFP and the soft-float
  configurations;
- the **IL data-type tables**: the conversion-opcode matrix and the size,
  name and prefix tables;
- **use/def index partitioning** and the low-bit-tagged `TR_UseDef` entry;
- the **alias-set algebra**: kill/use-only updates, `setAlias`, and the
  queries over a "single value or bit vector" container;
- **value-number lookups** and the value-numbering key **hash**;
- the z/TPF **program-interruption field** readers.

How the model represents the source:

- Memory buffers are `seq<byte>`, where `byte` is an integer in 0..255. A
  store through a pointer becomes a splice into the sequence.
- Host byte order is a parameter (`Bytes.ByteOrder`). The s390 low-core
  readers fix it to big-endian, as section "Assigned Storage Locations" in
  chapter 6, "Interruptions", of the IBM z/Architecture Principles of
  Operation lays those fields out.
- C++ integer widths are written out: `u16`/`u32` subset types, `Trunc16`
  for the two-byte code-offset store, `ToUnsigned` for the int32 to uint32
  conversion in the use/def membership tests, and `bv32`/`bv64` where the
  source does bit arithmetic on words (the hash, the tagged pointer).
- The masks of the s390 readers are a bitwise AND on naturals
  (`SignalContext.BitAnd`), defined bit by bit.
- The phase-name and type-name tables are read backwards by searching the
  table. That no two entries share a name is proved through a short key
  (length and first, or first and last, characters) that a ghost table maps
  back to the entry.
- Bit vectors of symbol-reference numbers are `set<nat>`; an absent
  `TR_BitVector *` is `None`.
- Code-generator calls whose bodies are not shown are uninterpreted: the
  phase handlers' work is a function parameter `env.work`, the interruption
  predicate is `env.interrupted`, and `setUniqueValueNumber` is a parameter.

Files: `optional.dfy`, `bytes.dfy` (shared helpers), `stack_atlas.dfy`,
`codegen_phase.dfy`, `arm_registers.dfy`, `data_types.dfy`, `use_def.dfy`,
`alias_sets.dfy`, `value_numbers.dfy`, `signal_context.dfy`.

## Model

| member | source | states |
|---|---|---|
| StackAtlas.RangeNeedsFourByteOffset | fvtest/compilertest/env/FrontEnd.cpp:40 | The result is 0 or 1, and it is 1 exactly when the range is at least 65535, so 65535 itself needs four bytes. |
| StackAtlas.EncodedMapSize | fvtest/compilertest/env/FrontEnd.cpp:163-166 | An encoded map takes the code-offset width (4 or 2 bytes) plus `bytesPerStackMap` bytes, so at least 2. The same definition serves both the sizing and the writing function. |
| StackAtlas.TwoByteOffsetsAreExact | fvtest/compilertest/env/FrontEnd.cpp:93-102 | When the code range does not need four-byte offsets, storing an offset within the range into the two-byte field loses nothing. |
| StackAtlas.MapsAreIdentical | fvtest/compilertest/env/FrontEnd.cpp:115-140 | A map may be merged into its successor exactly when the successor exists, neither is the parameter map, and both carry the same bits, register map, high-word map on s390 and, unless shrink wrapping is off, register save description. |
| StackAtlas.KeptPrefix | fvtest/compilertest/env/FrontEnd.cpp:203-218 | The maps encoded from the first `n` list entries number at most `n`. |
| StackAtlas.KeptPrefixExtends | fvtest/compilertest/env/FrontEnd.cpp:203-218 | Walking further down the list only appends encoded maps; the earlier ones stay as they were. |
| StackAtlas.KeptPositionOf | fvtest/compilertest/env/FrontEnd.cpp:209-215 | List entry `j` adds an encoded map exactly when it is not identical to its successor, and then the added map is entry `j`. |
| StackAtlas.LastAndParameterMapsAreEncoded | fvtest/compilertest/env/FrontEnd.cpp:122-139 | The last map of the list and the parameter map are never coalesced away. |
| StackAtlas.RunEnd | fvtest/compilertest/env/FrontEnd.cpp:122-139 | From any map, the run of identical successors ends at a map that is encoded. Every map in between is identical to its successor, and the run's end carries the same liveness content as its start. |
| StackAtlas.SameRunSameEntry | fvtest/compilertest/env/FrontEnd.cpp:209-215 | All maps in one run of identical maps are represented by the same encoded map, the run's last one in list order. |
| StackAtlas.CalculateSizeOfStackAtlas | fvtest/compilertest/env/FrontEnd.cpp:224-264 | The size is the header size plus the per-map size times the number of maps not identical to their successor. It never exceeds the size with every map encoded. |
| StackAtlas.MapImage | fvtest/compilertest/env/FrontEnd.cpp:93-110 | An encoded map image is the offset field followed by exactly the map's bytes. |
| StackAtlas.EncodeStackMap | fvtest/compilertest/env/FrontEnd.cpp:80-112 | The code offset (4 or 2 bytes) and then the map bits are written at the position, and no byte outside that slot changes. |
| StackAtlas.SplicedImageHolds | fvtest/compilertest/env/FrontEnd.cpp:93-110 | Splicing a map's image at a position leaves a slot there that decodes to that map. |
| StackAtlas.SlotSurvivesWriteBelow | fvtest/compilertest/env/FrontEnd.cpp:211-215 | A map already written survives later writes that all lie below it. |
| StackAtlas.DecodeMaps | fvtest/compilertest/env/FrontEnd.cpp:93-110 | Decoding `n` consecutive slots gives `n` entries (the reader that inverts the encoder). |
| StackAtlas.ReversedEntries | fvtest/compilertest/env/FrontEnd.cpp:194-218 | The entries expected in the atlas are the kept maps in reverse list order, one per kept map. |
| StackAtlas.SlotDecodes | fvtest/compilertest/env/FrontEnd.cpp:93-110 | A slot written for a map of `bytesPerStackMap` bytes fits in the buffer and decodes to that map's stored offset and bits. |
| StackAtlas.DecodeBackwardSlots | fvtest/compilertest/env/FrontEnd.cpp:198-218 | Maps laid backwards from an end position decode, front to back, as the maps in reverse order. |
| StackAtlas.DecodeMapsStep | fvtest/compilertest/env/FrontEnd.cpp:198-218 | Decoding one more slot appends exactly that slot's entry. |
| StackAtlas.HeaderBytes | fvtest/compilertest/env/FrontEnd.cpp:170-180 | The header image is `HeaderSize` bytes. |
| StackAtlas.HeaderRoundTrip | fvtest/compilertest/env/FrontEnd.cpp:170-192 | The header decodes to the map count, the bytes per stack map, a zero frame-object parameter offset and the local base offset, each cut to its 16-bit field. When no field overflows, the decoded fields are exactly the atlas's values. |
| StackAtlas.CreateStackAtlas | fvtest/compilertest/env/FrontEnd.cpp:143-221 | The header is always written, even on overflow. The method aborts exactly when a header field would overflow, and then nothing past the header changes. Otherwise the kept maps are laid backwards from the buffer's end and the bytes between header and maps are untouched. With the calculated size, the lowest map starts right after the header. |
| StackAtlas.LayOutMaps | fvtest/compilertest/env/FrontEnd.cpp:198-218 | The cursor steps back once per kept map from the end of the buffer. Every kept map is laid at its slot, and nothing below the final cursor changes. |
| StackAtlas.WriteBelowLaidMaps | fvtest/compilertest/env/FrontEnd.cpp:211-215 | Writing one more map below the maps already laid extends the laid sequence by that map, and bytes below the new cursor are kept. |
| StackAtlas.EarlierSlotSurvives | fvtest/compilertest/env/FrontEnd.cpp:211-215 | A laid map stays laid after a write below the cursor. |
| StackAtlas.AtlasRoundTrip | fvtest/compilertest/env/FrontEnd.cpp:143-264 | An atlas of the calculated size decodes to the header fields and to the kept maps' entries in reverse list order. |
| StackAtlas.KeptAreListed | fvtest/compilertest/env/FrontEnd.cpp:203-218 | Every encoded map is a map of the list. |
| CodeGenPhases.GetName | compiler/codegen/OMRCodeGenPhase.cpp:558-601 | There is a name exactly for the 17 known phase ids; any other id has none. |
| CodeGenPhases.PhaseNamed | compiler/codegen/OMRCodeGenPhase.cpp:558-601 | Searching the name table for a name yields, if anything, a phase with that name. |
| CodeGenPhases.NameKeyIdentifiesPhase | compiler/codegen/OMRCodeGenPhase.cpp:558-601 | The length and first character of a known phase's name already pick out that phase. |
| CodeGenPhases.NameRoundTrip | compiler/codegen/OMRCodeGenPhase.cpp:558-601 | Every known phase's name leads back to that phase. |
| CodeGenPhases.NamesAreDistinct | compiler/codegen/OMRCodeGenPhase.cpp:558-601 | Distinct known phases have distinct names. |
| CodeGenPhases.KnownPhasesAreListed | compiler/codegen/OMRCodeGenPhase.cpp:558-601 | The searched table holds exactly the phase ids that `getName` has a case for. |
| CodeGenPhases.PhaseNamedIsInverse | compiler/codegen/OMRCodeGenPhase.cpp:558-601 | The name search finds a phase exactly when `getName` gives that phase this name. |
| CodeGenPhases.PhaseListShape | compiler/z/codegen/CodeGenPhaseToPerform.hpp:24-35 | The list has 11 entries, from ReserveCodeCache to ProcessRelocations. Every entry has a name and no id appears twice. |
| CodeGenPhases.PhaseListKnown | compiler/z/codegen/CodeGenPhaseToPerform.hpp:24-35 | Every listed id has a handler. |
| CodeGenPhases.PhaseListOrder | compiler/z/codegen/CodeGenPhaseToPerform.hpp:24-35 | The order is LowerTrees, SetupForInstructionSelection, InstructionSelection, CreateStackAtlas, RegisterAssigning, MapStack, Peephole, then BinaryEncoding, EmitSnippets and ProcessRelocations. Both checkpoints precede BinaryEncoding. |
| CodeGenPhases.Perform | compiler/codegen/OMRCodeGenPhase.cpp:139-547 | A handler reports its own phase exactly when it is one of the nine that call `reportPhase`: ProcessRelocations, EmitSnippets, BinaryEncoding, Peephole, RegisterAssigning, InstructionSelection, SetupForInstructionSelection, LowerTrees and RemoveUnusedLocals (lines 150, 239, 285, 316, 354, 402, 448, 480 and 530); every other handler leaves the current phase as it was. It throws exactly when it is instruction selection or register assignment and the interruption predicate holds at the matching checkpoint. The code-length assertion fails exactly after relocation processing with the code longer than the estimate. |
| CodeGenPhases.CurrentName | compiler/codegen/OMRCodeGenPhase.cpp:551-555 | `getName()` is the name of the phase last reported, and it maps back to that phase. |
| CodeGenPhases.RunDispatchesPrefix | compiler/codegen/OMRCodeGenPhase.cpp:114-124 | A run of the first `n` entries dispatches a prefix of them, in order: all of them unless a handler threw, and up to and including the throwing one otherwise. |
| CodeGenPhases.RunStopsAtThrow | compiler/codegen/OMRCodeGenPhase.cpp:373-380 | A run that stopped stopped at the last phase it dispatched. In this model, where the handlers' code-generator calls always return, only an interruption checkpoint or the length assertion stops it. |
| CodeGenPhases.RunReportsLast | compiler/codegen/OMRCodeGenPhase.cpp:126-130 | After a run, the current phase is the last reporting phase it dispatched, or the initial one if none reported. |
| CodeGenPhases.PerformAll | compiler/codegen/OMRCodeGenPhase.cpp:114-124 | The loop calls each list entry's handler once, in increasing order. In this model, where the handlers' code-generator calls always return, it ends in one of three ways: Completed with the whole list dispatched; Interrupted at InstructionSelection or RegisterAssigning with no later entry dispatched; or EstimateExceeded with the whole list dispatched, the length assertion having failed after ProcessRelocations. The current phase is the last reported. |
| CodeGenPhases.RunPrefixExtends | compiler/codegen/OMRCodeGenPhase.cpp:119-123 | One more loop iteration after an unthrown run is one more handler call on the next entry. |
| CodeGenPhases.WholeListRun | compiler/codegen/OMRCodeGenPhase.cpp:114-124 | What a run of the whole list dispatches and, in this model, the only two places it can be interrupted. |
| CodeGenPhases.StoppedRunStaysStopped | compiler/codegen/OMRCodeGenPhase.cpp:426-431 | Once a handler has thrown, no later entry changes anything. |
| CodeGenPhases.CheckpointsPrecedeEncoding | compiler/codegen/OMRCodeGenPhase.cpp:426-431 | A run interrupted at either checkpoint never reached binary encoding. |
| CodeGenPhases.EstimatedSnippetLength | compiler/codegen/OMRCodeGenPhase.cpp:262-269 | Each snippet's length is queried at the start offset advanced by the lengths of the snippets before it, in list order. The total is the final offset minus the start. |
| CodeGenPhases.OffsetIndependentSnippetLength | compiler/codegen/OMRCodeGenPhase.cpp:262-269 | When no snippet's length depends on its offset, the total is the sum of the lengths. |
| CodeGenPhases.QueriedOffsetsAreSums | compiler/codegen/OMRCodeGenPhase.cpp:262-269 | Snippet `k` is queried at the start plus the lengths of the first `k` snippets. |
| ArmRegisters.EnumValue | compiler/arm/codegen/RealRegisterEnum.hpp:24-89 | Every enumerator of a configuration has a value in `0 .. NumRegisters-1`. |
| ArmRegisters.FromEnum | compiler/arm/codegen/RealRegisterEnum.hpp:24-89 | A value maps back only to an enumerator the configuration has. |
| ArmRegisters.EnumRoundTrip | compiler/arm/codegen/RealRegisterEnum.hpp:24-89 | An enumerator's value maps back to that enumerator. |
| ArmRegisters.EnumValuesAreDense | compiler/arm/codegen/RealRegisterEnum.hpp:24-89 | The values `0 .. NumRegisters-1` are exactly the enumerators' values, with no gaps. |
| ArmRegisters.EnumValueInjective | compiler/arm/codegen/RealRegisterEnum.hpp:24-89 | No two enumerators share a value. |
| ArmRegisters.Layout | compiler/arm/codegen/RealRegisterEnum.hpp:24-89 | NoReg is 0; gr0..gr15 are FirstGPR..LastGPR with LastAssignableGPR = gr10 below LastGPR; fp0 = FirstFPR = LastGPR+1. With VFP, fp15 and fs15 end their ranges and SpilledReg = 49 = fs15+1. With soft float, LastFPR = LastAssignableFPR = fp7 and SpilledReg = 25 = fp7+1. NumRegisters = SpilledReg+1. |
| ArmRegisters.AssignableRanges | compiler/arm/codegen/RealRegisterEnum.hpp:42-87 | A register is assignable exactly when it lies in gr0..LastAssignableGPR, fp0..LastAssignableFPR or (VFP only) fs0..LastAssignableFSR. NoReg and SpilledReg are never assignable. |
| DataTypes.Index | compiler/il/OMRDataTypes.cpp:34-51 | Every type's index lies below the number of types, and the enumeration order lists that type at that index. |
| DataTypes.Conversion | compiler/il/OMRDataTypes.cpp:34-64 | The diagonal and the NoType and Aggregate rows and columns hold only `BadILOp`; ConversionMeaning characterises every entry. |
| DataTypes.ConversionMeaning | compiler/il/OMRDataTypes.cpp:37-51 | The matrix has a scalar opcode exactly for convertible scalar pairs, and it names that pair. It has `v2v` exactly between distinct vector types, and `BadILOp` everywhere else. |
| DataTypes.ScalarEntries | compiler/il/OMRDataTypes.cpp:37-51 | A scalar entry's opcode names its own pair, exactly for the convertible pairs. |
| DataTypes.VectorEntries | compiler/il/OMRDataTypes.cpp:45-50 | `v2v` sits exactly between distinct vector types. |
| DataTypes.ConversionOpcodesAreUnique | compiler/il/OMRDataTypes.cpp:37-51 | Each scalar conversion opcode occurs at the one pair it names and nowhere else. |
| DataTypes.ConversionBorders | compiler/il/OMRDataTypes.cpp:37-51 | The diagonal and the NoType and Aggregate rows and columns are all `BadILOp`. |
| DataTypes.VectorScalarIsBad | compiler/il/OMRDataTypes.cpp:38-50 | Every vector-to-scalar and scalar-to-vector entry is `BadILOp`. |
| DataTypes.AddressConversions | compiler/il/OMRDataTypes.cpp:38-44 | Float and Double do not convert to or from Address; every integer type does. |
| DataTypes.FloatTypeFromSize | compiler/il/OMRDataTypes.cpp:66-77 | The result is NoType or a floating type. |
| DataTypes.CanGetMaxPrecisionFromType | compiler/il/OMRDataTypes.cpp:79-92 | True exactly for the four integer types. |
| DataTypes.MaxPrecisionTypesConvertToAddress | compiler/il/OMRDataTypes.cpp:79-92 | The types with a maximum precision are exactly those the matrix converts to Address. |
| DataTypes.GetSize | compiler/il/OMRDataTypes.cpp:130-135 | Reads a type's entry of the size table; SetSize and DefaultSizeValues give what it reads after a `setSize` and in the initial table. |
| DataTypes.SetSize | compiler/il/OMRDataTypes.cpp:137-142 | After `setSize(dt, n)`, `getSize(dt)` is `n` and every other type's size is unchanged. |
| DataTypes.IndexInjective | compiler/il/OMRDataTypes.cpp:109-126 | Distinct types have distinct table slots. |
| DataTypes.DefaultSizeValues | compiler/il/OMRDataTypes.cpp:109-135 | The initial sizes are 0 for NoType and Aggregate, 1/2/4/8 for the integer types, 4/8 for Float/Double, the pointer width for Address and 16 for every vector type. |
| DataTypes.FloatTypeSizeRoundTrip | compiler/il/OMRDataTypes.cpp:66-135 | `getFloatTypeFromSize` gives a floating type exactly for sizes 4 and 8, and with the initial sizes it inverts `getSize` on the floating types. |
| DataTypes.GetName | compiler/il/OMRDataTypes.cpp:145-171 | Every type has a nonempty name. |
| DataTypes.GetPrefix | compiler/il/OMRDataTypes.cpp:174-200 | Only NoType has no prefix; every other prefix is nonempty. |
| DataTypes.TypeNamed | compiler/il/OMRDataTypes.cpp:145-171 | Searching the type table for a name yields, if anything, a type with that name. |
| DataTypes.TypeWithPrefix | compiler/il/OMRDataTypes.cpp:174-200 | Searching the type table for a prefix yields, if anything, a type with that prefix. |
| DataTypes.NameKeyIdentifiesType | compiler/il/OMRDataTypes.cpp:145-171 | The length, first and last character of a type's name already pick out that type. |
| DataTypes.PrefixKeyIdentifiesType | compiler/il/OMRDataTypes.cpp:174-200 | Every type but NoType has a nonempty prefix whose length, first and last character pick out that type. |
| DataTypes.NamesAndPrefixesRoundTrip | compiler/il/OMRDataTypes.cpp:145-200 | Each type's name and prefix map back to that type. |
| DataTypes.NamesAndPrefixesAreDistinct | compiler/il/OMRDataTypes.cpp:145-200 | No two types share a name or a prefix. |
| DataTypes.LookupsAreInverses | compiler/il/OMRDataTypes.cpp:145-200 | The name (prefix) search finds a type exactly when that type's name (prefix) is the string searched for. |
| UseDefIndices.NumDefsOnEntry | compiler/optimizer/UseDefInfo.hpp:216 | The count is the defs on entry when each has its own index, and 1 otherwise. |
| UseDefIndices.FirstRealDefIndex | compiler/optimizer/UseDefInfo.hpp:221 | The first real def index equals the number of def-on-entry indices. |
| UseDefIndices.EntryDefsReserveFirstIndices | compiler/optimizer/UseDefInfo.hpp:48-50 | The first indices are reserved for the entry defs: one shared index makes the first real def index 1; reserved nonzero indices inside the def-only part are def-only indices; real def indices up to the last def index are def indices; with unique indices but no entry defs the first real def index is 0, which is never a def index. |
| UseDefIndices.ToUnsigned | compiler/optimizer/UseDefInfo.hpp:224-225 | The int32 to uint32 conversion keeps nonnegative values and adds 2^32 to negative ones. |
| UseDefIndices.IsDefIndexAsWritten | compiler/optimizer/UseDefInfo.hpp:224 | The compiled test accepts a nonzero index exactly when there are no def nodes or the index is a def index by value. |
| UseDefIndices.IsUseIndexAsWritten | compiler/optimizer/UseDefInfo.hpp:225 | The compiled test accepts an index exactly when there are no nodes at all or the index is a use index by value. |
| UseDefIndices.AsWrittenAgreesWithoutEmptyParts | compiler/optimizer/UseDefInfo.hpp:224-225 | With at least one def node (or one node at all), the compiled unsigned comparisons agree with the value comparisons. |
| UseDefIndices.EmptyPartsAdmitEveryIndex | compiler/optimizer/UseDefInfo.hpp:224-225 | With no nodes, the compiled tests accept every nonzero index as both a def and a use index, while the value comparisons accept none. |
| UseDefIndices.IndexParts | compiler/optimizer/UseDefInfo.hpp:213-225 | Def indices are `1 .. numDefOnly+numDefUse-1` and use indices are `numDefOnly .. total-1`. A nonzero index is both exactly in the def-use part, and 0 is never a def index. |
| UseDefIndices.PartitionIsExact | compiler/optimizer/UseDefInfo.hpp:52-58 | Every nonzero index below the total lies in exactly one of the def-only, def-use and use-only parts. |
| UseDefIndices.IsExpandedDefIndex | compiler/optimizer/UseDefInfo.hpp:250-251 | An expanded def index is a def index of the same three-part layout over the expanded counts. |
| UseDefIndices.IsExpandedUseIndex | compiler/optimizer/UseDefInfo.hpp:252-253 | An expanded use index is a use index of the same three-part layout over the expanded counts. |
| UseDefIndices.IsExpandedUseDefIndex | compiler/optimizer/UseDefInfo.hpp:254-255 | An expanded use-def index is a use index of that layout that also lies within its def part. |
| UseDefIndices.ExpandedUseDefIsBoth | compiler/optimizer/UseDefInfo.hpp:250-255 | With at least one expanded def-only node, an index is an expanded use-def index exactly when it is an expanded def and use index. Without one, index 0 is a use-def index but not a def index. |
| TaggedUseDef.Empty | compiler/optimizer/UseDefInfo.hpp:344 | The default entry is not a def. |
| TaggedUseDef.FromTreeTop | compiler/optimizer/UseDefInfo.hpp:345 | An entry built from an aligned tree top is a def. |
| TaggedUseDef.IsDef | compiler/optimizer/UseDefInfo.hpp:347 | An entry is a def exactly when its word is not aligned, so tree-top entries are defs and node entries are not (FromTreeTop, FromNode, KindsAreDisjoint). |
| TaggedUseDef.FromNode | compiler/optimizer/UseDefInfo.hpp:346 | An entry built from an aligned node is not a def. |
| TaggedUseDef.GetDef | compiler/optimizer/UseDefInfo.hpp:348 | The tree top read back has its tag bit clear. |
| TaggedUseDef.GetUseDef | compiler/optimizer/UseDefInfo.hpp:349 | The node read from a non-def entry is aligned and rebuilds that same entry. |
| TaggedUseDef.TreeTopRoundTrip | compiler/optimizer/UseDefInfo.hpp:345-348 | Tagging a tree top and reading it back gives the original address. |
| TaggedUseDef.NodeRoundTrip | compiler/optimizer/UseDefInfo.hpp:346-349 | Storing a node and reading it back gives the original address. |
| TaggedUseDef.KindsAreDisjoint | compiler/optimizer/UseDefInfo.hpp:341-358 | A tree-top entry and a node entry never share a stored word. |
| AliasSets.AddKills | compiler/il/AliasSetInterface.hpp:367-385 | `b` enters `a`'s kill set exactly when that vector exists, and `a` enters `b`'s use-only set exactly when that one exists. Nothing else changes. |
| AliasSets.RemoveKills | compiler/il/AliasSetInterface.hpp:351-365 | With either vector absent nothing changes. Otherwise exactly those two bits are cleared. |
| AliasSets.SetKills | compiler/il/AliasSetInterface.hpp:387-398 | `value` selects add or remove; no vector is created or dropped. |
| AliasSets.SetKillsKeepsMirror | compiler/il/AliasSetInterface.hpp:351-398 | Both updates keep every kill set and use-only set mirror images of each other. |
| AliasSets.RemoveUndoesAdd | compiler/il/AliasSetInterface.hpp:351-385 | Removing right after adding a fresh pair restores the table. |
| AliasSets.UseDefSetAlias | compiler/il/AliasSetInterface.hpp:308-327 | A null second reference is a no-op. Otherwise `a` kills `b`, and `b` also kills `a` exactly when neither is a method; clearing removes the bit. Adding never shrinks a kill set. |
| AliasSets.UseOnlySetAlias | compiler/il/AliasSetInterface.hpp:328-347 | Every branch is the same update: `b`'s use/def `setAlias(a, value)`. |
| AliasSets.SetAlias | compiler/il/AliasSetInterface.hpp:308-349 | A null reference is a no-op, and no vector is created or dropped. |
| AliasSets.SetAliasKeepsMirror | compiler/il/AliasSetInterface.hpp:308-349 | `setAlias` of either kind keeps the kill and use-only sets mirrored. |
| AliasSets.SetAliases | compiler/il/AliasSetInterface.hpp:255-270 | Setting a list of references one by one creates or drops no vector. |
| AliasSets.AddAliasesKillsEach | compiler/il/AliasSetInterface.hpp:255-270 | After adding a list of references to a use/def alias set with a kill vector, every listed reference is killed. |
| AliasSets.AddAliasesOnlyGrow | compiler/il/AliasSetInterface.hpp:255-270 | Adding a list of references never removes a reference from any kill set. |
| AliasSets.SetAliasesKeepsMirror | compiler/il/AliasSetInterface.hpp:255-270 | Setting a list of references, adding or removing, keeps the kill and use-only sets mirrored. |
| AliasSets.RemoveAliasOnlyShrinks | compiler/il/AliasSetInterface.hpp:308-327 | Removing one alias from a use/def alias set never adds a reference to any kill set. |
| AliasSets.RemoveAliasesOnlyShrink | compiler/il/AliasSetInterface.hpp:255-270 | Removing a list of references never adds a reference to any kill set. |
| AliasSets.RemoveAliasesClearsEach | compiler/il/AliasSetInterface.hpp:255-270 | After removing a list of references from a use/def alias set with a kill vector, no listed reference whose use-only vector exists is killed. |
| AliasSets.SymbolAliases | compiler/il/AliasSetInterface.hpp:400-408 | A symbol's use/def container holds its kill set and its use-only container holds its use-only set. |
| AliasSets.MayUseAliases | compiler/il/AliasSetInterface.hpp:453-463 | A node's may-use aliases are its symbol's use-only set when it is a use with a symbol reference, and empty otherwise. |
| AliasSets.MayKillAliases | compiler/il/AliasSetInterface.hpp:465-480 | A def-like or volatile node with a symbol reference kills its symbol's use/def aliases if the symbol is shared, or only its own reference number if not. Any other node kills nothing. |
| AliasSets.GetAliases | compiler/il/AliasSetInterface.hpp:58-65 | The caller's vector becomes the aliases; the result says whether they are nonempty. |
| AliasSets.UnionWith | compiler/il/AliasSetInterface.hpp:78-86 | The vector gains the aliases; the result says whether the union is nonempty. |
| AliasSets.SubtractFrom | compiler/il/AliasSetInterface.hpp:89-105 | The vector loses the aliases (only the one bit for a single value); the result says whether anything is left. |
| AliasSets.IntersectWithAsWritten | compiler/il/AliasSetInterface.hpp:107-125 | As written: `v ∩ {x}` for a single value and `v ∩ aliases` for a vector, but `v` itself when the vector is absent. |
| AliasSets.IntersectWithEmptyKeepsVector | compiler/il/AliasSetInterface.hpp:107-125 | With no vector, `{1}` survives the intersection and the result says true, though the container is empty and `containsAny` says false. |
| AliasSets.IntersectWith | compiler/il/AliasSetInterface.hpp:107-125 | Corrected: the vector becomes `v ∩ aliases` for every container; the result says whether it is nonempty. |
| AliasSets.Contains | compiler/il/AliasSetInterface.hpp:143-149 | True exactly when the reference number is in the container. |
| AliasSets.ContainsAny | compiler/il/AliasSetInterface.hpp:151-165 | True exactly when some reference is in the container: membership for a single value, false for an absent vector. |
| AliasSets.IsZero | compiler/il/AliasSetInterface.hpp:206-210 | True exactly when the container is empty. |
| AliasSets.HasAliases | compiler/il/AliasSetInterface.hpp:212-217 | True exactly when the container holds more than one reference. |
| AliasSets.IntersectAgreesWithContainsAny | compiler/il/AliasSetInterface.hpp:107-165 | The corrected intersection is nonempty exactly when `containsAny` holds. It agrees with the code as written whenever a container is present. |
| AliasSets.IntersectAndSubtractSplit | compiler/il/AliasSetInterface.hpp:89-125 | Intersecting and subtracting split the caller's vector into two disjoint parts that together give it back. |
| ValueNumbers.GetNode | compiler/optimizer/ValueNumberInfo.hpp:75-80 | There is no node at or past the node count. Below it, the stored node sits at that index. |
| ValueNumbers.GetNext | compiler/optimizer/ValueNumberInfo.hpp:83-89 | A node past the count is its own next. Otherwise the next node is the ring's stored successor, which is in range with the same value number. |
| ValueNumbers.WalkStaysInValueNumber | compiler/optimizer/ValueNumberInfo.hpp:83-89 | Following `getNext` any number of times never leaves a node's value number, and never moves an unnumbered node. |
| ValueNumbers.GetValueNumber | compiler/optimizer/ValueNumberInfo.hpp:66-72 | For a numbered node it is a pure lookup. Otherwise `setUniqueValueNumber` runs first and the lookup reads the updated table. |
| ValueNumbers.RingNodesShareValueNumber | compiler/optimizer/ValueNumberInfo.hpp:66-89 | Any two nodes on one ring get the same value number. |
| ValueNumberHash.DataBytes | compiler/optimizer/ValueNumberInfo.hpp:187-188 | A word is four bytes, each below 256, in the host's memory order. |
| ValueNumberHash.FoldSnoc | compiler/optimizer/ValueNumberInfo.hpp:189-193 | One more byte at the end of the input is one more xor-and-multiply step. |
| ValueNumberHash.Hash | compiler/optimizer/ValueNumberInfo.hpp:183-199 | The loop's result is the four byte steps in memory order followed by the shift/add/xor mix. |
| ValueNumberHash.HostOrderIsByteSwap | compiler/optimizer/ValueNumberInfo.hpp:183-199 | A big-endian host hashes a word as a little-endian host hashes the byte-swapped word. |
| SignalContext.FetchILC | port/ztpf/omrsignal_context.h:78-91 | The instruction-length code is 0, 2, 4 or 6. |
| SignalContext.FetchPIC | port/ztpf/omrsignal_context.h:92-100 | The interruption code is at most 0x13F. |
| SignalContext.IlcKeepsLengthBits | port/ztpf/omrsignal_context.h:78-91 | The result keeps bits 1 and 2 of the halfword at 0x8C and clears every other bit. |
| SignalContext.PicKeepsCodeBits | port/ztpf/omrsignal_context.h:92-100 | The result keeps bits 0-5 and 8 of the halfword at 0x8E and clears every other bit, in particular the PER bit 0x80. |
| SignalContext.ReadsOnlyInterruptionFields | port/ztpf/omrsignal_context.h:90-106 | All three readers depend only on bytes 0x8C..0x93, so a buffer of 0x94 bytes suffices. |

## Left out

- `StackAtlasPOD.hpp` is not part of this model. The header is taken to be four 16-bit fields: map count, bytes per stack map, frame-object parameter offset and local base offset, 8 bytes in all.
- StackAtlas.CreateStackAtlas: follows the code, which writes the header before the overflow check, rather than checking before any write. It also requires each map's bits to fit `bytesPerStackMap` bytes; a longer map would write past its slot.
- StackAtlas.CalculateSizeOfStackAtlas: the `uint32_t` size accumulator is unbounded here; its wrap-around is not modelled.
- The parameter map is compared by pointer in the source; the model identifies it by its position in the list.
- The front-end stubs for trampolines and resolved methods (FrontEnd.cpp:56-75) are not modelled.
- The phase handlers' code-generator calls (`doInstructionSelection`, `doRegisterAssignment`, `doBinaryEncoding`, `processRelocations`, `mapStack`, `emitSnippets`, and the others) have no visible bodies. They are one uninterpreted step per phase.
- Tracing, timers, memory profilers, disassembly dumps, `setDllSlip`, diagnostics and the register-pressure simulation in the handlers are I/O only and are left out.
- `CodeGenPhaseEnum.hpp` and `CodeGenPhaseFunctionTable.hpp` are not part of this model. Phases are a datatype with an `Unknown` case for any other id, and the function table is taken to send each phase to its own handler.
- CodeGenPhases.RunStopsAtThrow, CodeGenPhases.PerformAll, CodeGenPhases.WholeListRun: exceptions raised inside the handlers' code-generator calls are not modelled, because those calls have no visible bodies and a step always returns. The source catches nothing in `performAll`, so such an exception (the front end throws `TR::CompilationException` at fvtest/compilertest/env/FrontEnd.cpp:191, for one) would leave the loop at any phase, not only at the two checkpoints.
- CodeGenPhases.GetName: the `TR_ASSERT(false)` for an id without a name is not modelled; the result is no name, as in a build without assertions.
- CodeGenPhases.Perform: `TR_ASSERT` on the code-length estimate is modelled as a distinct outcome that stops the run; in a build without assertions it would not stop anything.
- CodeGenPhases.EstimatedSnippetLength: the `int32_t` offset accumulator is unbounded here; overflow is not modelled.
- `getMaxPrecisionFromType` depends on `TR::getMaxSignedPrecision`, which is not shown.
- DataTypes.FloatTypeFromSize: the `TR_ASSERT` for an unexpected size is not modelled; the result is NoType, as in a build without assertions.
- The `TR_ASSERT` range checks on a data type (`dt < NumOMRTypes`) are guaranteed by the datatype.
- `sizeof(intptrj_t)` for Address is a parameter (`pointerWidth`).
- UseDefIndices.Fits: the counts are `int32_t`; the model assumes their sum does not overflow. The rest of `TR_UseDefInfo` (reaching definitions, the def/use analysis) is out of scope.
- TaggedUseDef.GetDef: the `TR_ASSERT(isDef())` of the getters is a precondition here.
- The `includeGCSafePoint`/`isDirectCall` variants of a symbol's use/def aliases (`getUseDefAliasesBV`) are not shown, so each symbol has one kill set.
- `removeAllAliases` has an empty body apart from an assertion and a timer, and is not modelled.
- `CountUseDefAliases` depends on `sharesSymbol` and `commonElementCount`, which are not shown.
- The `TR_BitVector` and sparse-bit-vector overloads of union, subtract, intersect and `containsAny` share one set semantics here.
- The internals of `TR_BitContainer` and `TR_BitVector` are not shown; a container is a single value or an optional set.
- ValueNumbers.GetValueNumber: `setUniqueValueNumber` is not shown and is a parameter. A table it leaves too short gives no value instead of reading past the end.
- ValueNumberHash.Hash: the hash is not claimed injective, and the mix is not proved invertible. It is stated as a definition that the loop is shown to compute.
- `VNHashFunc::Hash` and `VNHashFunc::Equal` (compiler/optimizer/ValueNumberInfo.hpp:204-214) are not modelled: `Hash` returns the key's accumulated `_hashVal` and ignores the table's seed, and `Equal` calls `VNHashKey::operator==`. That operator and the `VNHashKey` constructor that accumulates `_hashVal` are only declared, so whether equal keys hash alike cannot be stated from what is shown; the model covers the accumulation step `hash` itself.
- SignalContext.FetchDXC returns the byte at 0x93 unmodified; it has no contract beyond its definition, and its partner is `ReadsOnlyInterruptionFields`.

## Findings

| source | as written | input that shows it | evidently intended | confidence | as-written member | corrected member |
|---|---|---|---|---|---|---|
| compiler/optimizer/UseDefInfo.hpp:224-225 | `isDefIndex` and `isUseIndex` compare a `uint32_t` index with `int32_t` bounds, so the bounds are converted to unsigned. A last index of -1 becomes 4294967295. | No nodes at all (all counts 0) and index 1: both tests return true. | An index is a def (use) index only when it lies between the signed bounds, so with no nodes none is. | low; not executed | UseDefIndices.IsDefIndexAsWritten, UseDefIndices.EmptyPartsAdmitEveryIndex | UseDefIndices.IsDefIndex, UseDefIndices.IndexParts |
| compiler/il/AliasSetInterface.hpp:107-125 | `getAliasesAndIntersectWith` leaves `v` unchanged when the container holds no bit vector, and returns whether `v` is nonempty. | An empty container and `v = {1}`: `v` stays `{1}` and the result is true, while `containsAny` on the same container says false. | The intersection with an empty alias set is empty, as `containsAny` and `isZero` treat it. | low; not executed | AliasSets.IntersectWithAsWritten, AliasSets.IntersectWithEmptyKeepsVector | AliasSets.IntersectWith, AliasSets.IntersectAgreesWithContainsAny |
