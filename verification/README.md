# upx-killer: verified model of the rebuild core

upx-killer runs a packed program, captures its memory and writes a loadable file
back. This project models the parts that decide what that file contains, and
proves that what one part writes another part reads back:

- **PE relocations.** Slots are inferred from three snapshots taken at distinct
  bases, encoded as a base-relocation directory, and applied again by the
  rebaser, modulo 2^32 or 2^64.
- **PE rebuild.** The image is split into page-role sections, laid out as a file
  with an import table and headers, and read back by the parser, the import
  validator and the final validator.
- **Import discovery.** Two interleaved lanes are scanned for import slots, which
  become a plan that the fixer accepts.
- **ELF.** Captured segments become a file with a section table; the parser, the
  dynamic-section analyser and the validator read it. The normaliser undoes what
  the loader did to a shared object, and the load-bias resolver finds where a
  recovered image was mapped.
- **Host protocol.** Messages, frames, and frames over a pipe with short and
  interrupted transfers.
- **Debug session.** The debug-event loop, the breakpoint set and the memory
  dumper.

## How it is written

Most source files have a module of the same name, holding the imperative
operations as methods with the source's loops. Such a method is proved equal to a specification
function (`Outcome`, `Flat`, `Walk`, ...); the `...Laws` modules prove what the
source promises about those functions. The main operations have a second
description that names none of the model's functions: which inputs are accepted,
why the others are refused, and what the result holds, in literal offsets, flags,
tags and wire words. Integers are unbounded with the source's
32- and 64-bit wrap-around and overflow checks written out (`Wrap32`, `AlignUp`,
`Fits`). Bytes are little-endian `seq<Byte>`; packed structures are field lists
over `Structs`. The formats follow the Microsoft PE Format document (sections
"The .reloc Section (Image Only)", "Section Table (Section Headers)" and "The
.idata Section") and the System V gABI, chapters 4 and 5.

The chain for PE, from snapshots to the rebased file, is
`RelocationLaws.InferenceIsExact`, `RebuildLaws.RebuildThenParse`,
`EndToEndLaws.WalkFindsThePlan`, `RelocatedImageLaws.RebuiltThenRebased` and
`RelocatedImageLaws.CapturedBaseIsReproduced`; for ELF it is
`ElfFileLaws.FlatHoldsSegments`, `ElfRebuildLaws.ParsedLayoutComesBack`,
`ElfSectionTableLaws.TableReadsBack`, `ElfRoundTripLaws.RebuiltIsAccepted` and
`ElfRoundTripLaws.FaithfulRebuildKeepsTheFile`.

Those descriptions are, for PE, `PeParserLaws.ParseIsExact`,
`FixerAcceptanceLaws.RebuildIsExact`, `RebuiltHeaderLaws.RebuiltHeaderIsExact`,
`SectionRightsLaws.RightsAreExact`, `ImportPlanExactLaws.PlanIsExact`,
`ImportProviderExactLaws.HintedIsExact`, `ImportValidityLaws.ValidIsExact`,
`RelocationExactLaws.ReconstructionIsExact` and `RebaseExactLaws.RebasingIsExact`;
for ELF `ElfParserLaws.ParseIsExact`, `ElfAcceptanceLaws.RebuildIsExact`,
`ElfSectionContentLaws.RebuiltTableIsExact`, `ElfDynamicLaws.AnalysisIsExact` and
`NormalizationExactLaws.NormalizationIsExact`; for the session
`DebugSessionExactLaws.ExplicitIsExact` and
`DebugDiscoveryExactLaws.DiscoveryIsExact`; for the protocol
`EngineHostWireLaws.FrameIsExact`.

Conditions of the PE theorems (`Loadable`): the source layout was parsed, the
dump's header agrees with it, the headers end before the first rebuilt section,
the entry point is 0 or in a rebuilt section, and the output stays within 1 GiB.

Conditions of the discovery theorem (`DebugSessionMemoryLaws.DiscoveryIsExactIff`):
the image is located once, as when the debugger follows a single process, the
image size is not 0, and no validation window runs past the last address.

## What turned out not to hold as one might expect

- A rebuilt position-independent executable that carries `DT_SONAME` parses back
  as a shared object: `ElfSonameExample.SonameMakesSharedObject` is one, and
  `ElfRebuildLaws.ParsedLayoutComesBack` gives the exact condition (dynamic tables
  that overlap the program headers are read after those were written).
- The import validator refuses a module of 65,536 symbols or more, which the fixer
  writes: `ImportLimitExample.CrowdedModuleIsRefused` is one, and
  `RebuiltImportLaws.RebuiltImportsAccepted` gives the exact condition. Discovered
  plans are never that large (`DiscoveredImportLaws.DiscoveredImportsAccepted`).
- With a load bias inside the image, normalisation moves an address that the
  loader left alone: `NormalizationLaws.SmallBiasMovesAddresses` is a capture it
  does not return, and `NormalizationUndoesLoadingIff` gives the exact condition.
- With overlapping mappings the coverage walk can refuse a range that is covered:
  `LoadBiasResolver.OverlapHidesPermissions` is an instance, and `WalkIsExactIff`
  gives the exact condition. The kernel lists no overlapping ranges, so this does
  not arise from `/proc/<pid>/maps`.
- The debug session can take its own trap for a change of the debuggee: the 16
  bytes that validate a candidate may hold another candidate's transfer.
  `DebugSessionMemoryLaws.TrapCountsAsChange` gives such a run for every such
  request, and `DiscoveryIsExactIff` shows that these are the only ones.

## Model

| member | source | states |
|---|---|---|
| RelocatedImageLaws.RebuiltThenRebased | upx-killer-engine/Core/PE/Fixing/PeImageFixer.cpp:187-424 | Rebuild, parse and rebase to any 64K-aligned base B: the rebaser succeeds, finds as many slots as the plan has, and each slot holds B + target modulo the pointer width |
| RelocatedImageLaws.CapturedBaseIsReproduced | upx-killer-engine/Core/PE/Relocations/RelocationReconstructor.cpp:62-107 | For an inferred plan, the rebuilt file rebased to the base of snapshot i holds at every slot exactly what snapshot i held |
| RelocatedImageLaws.RebasedKeepsTheRest | upx-killer-engine/Core/PE/Rebasing/PeFileRebaser.cpp:57-119 | Rebasing the rebuilt file leaves every section byte outside the slots as it was |
| RelocatedImageLaws.RebuiltRebasingComposes | upx-killer-engine/Core/PE/Rebasing/PeFileRebaser.cpp:57-119 | Rebuild, parse and rebase to B, then parse that file and rebase it to C: the second parse sees the same layout placed at B, and the result is byte for byte the rebuilt file rebased to C once |
| RelocatedImageLaws.RelocatedRebuildIsAccepted | upx-killer-engine/Core/PE/Validation/RebuiltPeImageValidator.cpp:9-46 | The final validator accepts a relocated rebuild if and only if its import table is valid and the probe base is usable |
| RelocatedImageLaws.FixedRebuildIsAccepted | upx-killer-engine/Core/PE/Validation/RebuiltPeImageValidator.cpp:19-30 | The final validator accepts a fixed rebuild if and only if its import table is valid and it keeps the source base |
| RelocatedImageLaws.HeaderSurvivesNormalising | upx-killer-engine/Core/PE/Fixing/PeImageFixer.cpp:187-200 | Normalising slots beyond the headers keeps the agreement of the dumped header with the layout |
| EndToEndLaws.WalkFindsThePlan | upx-killer-engine/Core/PE/Fixing/PeImageFixer.cpp:383-401 | The block walk of the rebaser over the rebuilt file visits exactly the slots of the plan, in order |
| RelocationLaws.InferenceIsExact | upx-killer-engine/Core/PE/Relocations/RelocationReconstructor.cpp:74-107 | A plan holds precisely the non-residue locations whose three snapshots agree on one in-image offset, in increasing order; CandidatesAmbiguous if and only if two of them overlap; NoRelocations if and only if there is none |
| RelocationExactLaws.ReconstructionIsExact | upx-killer-engine/Core/PE/Relocations/RelocationReconstructor.cpp:111-135 | Exactly three sized snapshots at distinct bases divisible by 0x10000, with a slot and no overlap, give a plan; its directory holds one word per slot, type 3 (32-bit) or 10 (64-bit) and the low twelve bits of the address, in 4 KiB blocks; each of the three refusals has exactly its cause |
| RelocationLaws.ScanIsExact | upx-killer-engine/Core/PE/Relocations/RelocationReconstructor.cpp:74-101 | The scan from any address on lists each qualifying slot once, in increasing order, and nothing else |
| RelocationLaws.AcceptedIffNoInputError | upx-killer-engine/Core/PE/Relocations/RelocationReconstructor.cpp:116-126 | The input checks pass exactly for three long-enough snapshots at distinct nonzero fitting bases; otherwise one of the two input errors is returned |
| RelocationLaws.FixedValueIsNoSlot | upx-killer-engine/Core/PE/Relocations/RelocationReconstructor.cpp:80-93 | A location with the same value in two snapshots is never a slot |
| RelocationLaws.WalkVisitsEncodedSlots | upx-killer-engine/Core/PE/Relocations/RelocationReconstructor.cpp:38-60 | The block walk over an encoded directory consumes exactly the directory, skips only padding and visits exactly the encoded locations in order |
| RelocationLaws.DirectoryIsAligned | upx-killer-engine/Core/PE/Relocations/RelocationReconstructor.cpp:47-57 | An encoded directory is a multiple of 4 bytes long |
| RelocationLaws.BlockLength | upx-killer-engine/Core/PE/Relocations/RelocationReconstructor.cpp:47-57 | A block is 8 bytes plus an even number of words, a multiple of 4, and its size field says so |
| RelocationLaws.OneBlockPerPage | upx-killer-engine/Core/PE/Relocations/RelocationReconstructor.cpp:42-57 | For ordered slots the blocks are one per 4 KiB page, in strictly increasing page order |
| RelocationLaws.SlotHasBlock | upx-killer-engine/Core/PE/Relocations/RelocationReconstructor.cpp:42-57 | Every slot lies in the page of some block |
| RelocationReconstructor.Reconstruct | upx-killer-engine/Core/PE/Relocations/RelocationReconstructor.cpp:111-135 | The checks and the scan together give `Outcome` for any input; RelocationExactLaws.ReconstructionIsExact says in numbers which slots, words and errors that is |
| RelocationReconstructor.ReconstructTyped | upx-killer-engine/Core/PE/Relocations/RelocationReconstructor.cpp:62-107 | The in-place scan, which stops at the first overlap, finds the same plan or error as collecting every qualifying slot and then comparing neighbours |
| RelocationReconstructor.EncodeDirectory | upx-killer-engine/Core/PE/Relocations/RelocationReconstructor.cpp:38-60 | The nested page loops emit one block per maximal page run, as RelocationLaws.OneBlockPerPage and WalkVisitsEncodedSlots need |
| PeFileRebaser.Rebase | upx-killer-engine/Core/PE/Rebasing/PeFileRebaser.cpp:124-137 | For any input the checks and the block walk give `Outcome`, which RebaseExactLaws.RebasingIsExact says byte by byte |
| PeFileRebaser.RebaseTyped | upx-killer-engine/Core/PE/Rebasing/PeFileRebaser.cpp:42-120 | Adjusting slots while walking the blocks equals first collecting all slots of the directory and then adjusting them, with the same errors |
| PeFileRebaser.RebaseBlock | upx-killer-engine/Core/PE/Rebasing/PeFileRebaser.cpp:75-108 | The entry loop adjusts exactly the slots of its block, reads only the source file, and fails exactly where collecting them fails |
| RebasingLaws.RebasingComposes | upx-killer-engine/Core/PE/Rebasing/PeFileRebaser.cpp:57-119 | Rebasing A to B and then to C equals rebasing A to C byte for byte |
| RebasingLaws.RebasingReturns | upx-killer-engine/Core/PE/Rebasing/PeFileRebaser.cpp:57-119 | Rebasing back to A restores every byte except the placement fields of the optional header |
| RebaseExactLaws.RebasingIsExact | upx-killer-engine/Core/PE/Rebasing/PeFileRebaser.cpp:42-137 | Rebasing succeeds exactly for a movable file whose directory can be walked block by block; every byte of the result is a moved pointer byte, one of three header fields or the source byte; evidence and both input errors are exact |
| RebasedFileLaws.RebasedFileParses | upx-killer-engine/Core/PE/Rebasing/PeFileRebaser.cpp:104-118 | A rebased file parses to the layout it had, with the new base and without loader placement |
| RebasedFileLaws.ReparsedRebasingComposes | upx-killer-engine/Core/PE/Rebasing/PeFileRebaser.cpp:57-119 | For any parsed file with separate slots beyond its headers: parse, rebase, parse again and rebase again equals rebasing once |
| PeExecutionPlanFactory.FillDistinctBases | upx-killer-engine/Application/PE/Preparation/PeExecutionPlanFactory.cpp:9-21 | The in-place array is filled with the output base and then the first candidates that are nonzero and new, three at most |
| PeExecutionPlanFactory.Create | upx-killer-engine/Application/PE/Preparation/PeExecutionPlanFactory.cpp:25-68 | The plan is `Outcome`: which ExecutionPlanLaws.PlanIsExact gives in numbers |
| ExecutionPlanLaws.PlanIsExact | upx-killer-engine/Application/PE/Preparation/PeExecutionPlanFactory.cpp:9-68 | Every supported image gets a plan: fixed images their own base once, relocatable ones their base (0x400000 or 0x140000000 where movable) with the first two other listed bases, and the flags and the validation base by format |
| PeExecutionPlanFactory.CaptureBasesAreDistinct | upx-killer-engine/Application/PE/Preparation/PeExecutionPlanFactory.cpp:9-68 | Every supported relocatable image gets three capture bases that are distinct, nonzero and addressable |
| PeExecutionPlanFactory.PlannedSnapshotsAreAccepted | upx-killer-engine/Core/PE/Relocations/RelocationReconstructor.cpp:116-126 | Snapshots taken at the planned bases pass every input check of relocation inference |
| RebuildLaws.RebuildThenParse | upx-killer-engine/Core/PE/Fixing/PeImageFixer.cpp:233-261 | The parser accepts the rebuilt file and returns the emitted sections and header values; raw ranges tile the file after the headers, virtual ranges are ordered and disjoint |
| RebuildLaws.RebuiltHoldsTheImage | upx-killer-engine/Core/PE/Fixing/PeImageFixer.cpp:243-261 | Every address of a source section maps to the normalised image byte, except patched IAT slots |
| RebuiltContentLaws.SectionsTileTheFile | upx-killer-engine/Core/PE/Fixing/PeImageFixer.cpp:241-261 | Raw ranges of the emitted sections are consecutive from the end of the headers to the end of the file |
| AssemblyLaws.AddSectionKeeps | upx-killer-engine/Core/PE/Fixing/PeImageFixer.cpp:383-401 | Appending a section keeps the earlier headers and file bytes, places the new content whole, and keeps the ordering and alignment invariants |
| PeImageFixer.Rebuild | upx-killer-engine/Core/PE/Fixing/PeImageFixer.cpp:160-424 | For any input the stages compose to `Outcome`; FixerAcceptanceLaws.RebuildIsExact says when it is an error and which, RebuiltHeaderLaws.RebuiltHeaderIsExact and RebuildLaws what the file holds |
| FixerAcceptanceLaws.RebuildIsExact | upx-killer-engine/Core/PE/Fixing/PeImageFixer.cpp:160-424 | For every parsed layout whose output stays within 1 GiB: a file exactly when the request is sound, each slot fits, sections can be divided, the plan stands on one section per slot and a name is left; otherwise the error of the first failing demand; quality and warnings of the result |
| RebuiltHeaderLaws.RebuiltHeaderIsExact | upx-killer-engine/Core/PE/Fixing/PeImageFixer.cpp:47-156 | Parsed from the rebuilt file: the eight dropped directories hold only what the rebuild puts there (imports, address table, relocations, TLS of the evidence), every other directory, resources included, is the captured one; entry point, base, flags, sizes, checksum and totals in literal offsets |
| RebuiltSectionLaws.StageHeaders | upx-killer-engine/Core/PE/Fixing/PeImageFixer.cpp:241-401 | The section headers are those of the plan in order, then the import section and the relocation section with their names, flags and sizes, raw data padded with zeros |
| PeImageFixer.Normalise | upx-killer-engine/Core/PE/Fixing/PeImageFixer.cpp:187-200 | The slot loop writes base + target at every slot in plan order, or refuses at the first slot or value that does not fit |
| PeImageFixer.CopySections | upx-killer-engine/Core/PE/Fixing/PeImageFixer.cpp:243-261 | Resizing and copying section by section gives the assembly that AssemblyLaws shows to hold every section whole |
| PeImageFixer.AddImports | upx-killer-engine/Core/PE/Fixing/PeImageFixer.cpp:263-382 | The import section, its directories and the patched file are those that ImportTableLaws describes; every refusal of the plan is kept |
| PeImageFixer.FindImportName | upx-killer-engine/Core/PE/Fixing/PeImageFixer.cpp:350-362 | The name loop returns the first of .idata, .i001 to .i999 that no source section has, or none |
| PeHeaderWriter.WriteHeaders | upx-killer-engine/Core/PE/Fixing/PeImageFixer.cpp:47-156 | Field-by-field assignment, directory clearing and refilling equal one rewrite of the header fields; RebuiltHeaderLaws.RebuiltHeaderIsExact says which directories survive it |
| PeHeaderWriter.CountSections | upx-killer-engine/Core/PE/Fixing/PeImageFixer.cpp:87-113 | One pass over the sections gives, for code, initialised and uninitialised data, the raw total and the lowest base, and fails exactly where a total leaves 32 bits |
| HeaderLaws.HeadersReadBack | upx-killer-engine/Core/PE/Fixing/PeImageFixer.cpp:65-155 | The parser reads back exactly the header fields that the writer computed |
| HeaderLaws.SectionsReadBack | upx-killer-engine/Core/PE/Fixing/PeImageFixer.cpp:153-154 | The parser reads back every section header that the writer stored |
| RebuiltFileLaws.NewDllFlags | upx-killer-engine/Core/PE/Fixing/PeImageFixer.cpp:126-130 | A rebuild without relocations asks for no loader placement |
| SectionLayoutRebuilder.Build | upx-killer-engine/Core/PE/Sections/SectionLayoutRebuilder.cpp:441-522 | The whole build is `Outcome`; SectionRightsLaws gives each section its flags and name, SectionAcceptanceLaws.DivisionIsExact its number and the refusals |
| SectionLayoutRebuilder.PlanRanges | upx-killer-engine/Core/PE/Sections/SectionLayoutRebuilder.cpp:479-501 | Extending the last range page by page equals classifying all pages first and then merging equal touching neighbours |
| SectionLayoutRebuilder.ClassifyRegions | upx-killer-engine/Core/PE/Sections/SectionLayoutRebuilder.cpp:458-472 | Captured regions are sorted by writability and executability, and one region outside the image refuses all |
| SectionLayoutRebuilder.DiscoverIatRanges | upx-killer-engine/Core/PE/Sections/SectionLayoutRebuilder.cpp:336-353 | One IAT range per module in plan order; an empty module or one outside the image refuses all |
| SectionLayoutLaws.SectionsPartitionTheImage | upx-killer-engine/Core/PE/Sections/SectionLayoutRebuilder.cpp:474-517 | Rebuilt sections are aligned, ordered, disjoint, cover exactly the source extents clipped to the image, and touching neighbours differ in role |
| SectionLayoutLaws.WritableExecutableExactly | upx-killer-engine/Core/PE/Sections/SectionLayoutRebuilder.cpp:355-426 | A rebuilt section is writable and executable if and only if the page of each of its addresses overlaps a captured writable-executable region |
| SectionRightsLaws.RightsAreExact | upx-killer-engine/Core/PE/Sections/SectionLayoutRebuilder.cpp:355-426 | For each address of a rebuilt section: readable always; executable and code, and not initialised data, exactly where its page meets a writable-executable region, or code evidence or an executable region and no writable one; writable exactly where it meets a writable region or evidence, or, off code, an IAT range, or else lies in no exception, resource or export directory of a section that is not read-only |
| SectionRightsLaws.SectionsAreSorted | upx-killer-engine/Core/PE/Sections/SectionLayoutRebuilder.cpp:392-438 | Each address of a rebuilt section is of the sort that gives its flags and its name: .upkx, .text, .idata, .pdata, .rsrc, .edata, .rdata or .data, numbered from the second of a sort on |
| SectionRightsLaws.NeighboursDiffer | upx-killer-engine/Core/PE/Sections/SectionLayoutRebuilder.cpp:479-501 | Two rebuilt sections that touch are of different sorts |
| SectionAcceptanceLaws.DivisionIsExact | upx-killer-engine/Core/PE/Sections/SectionLayoutRebuilder.cpp:441-522 | InvalidInput exactly where the image cannot be divided (alignments, directories, ranges outside the image); otherwise a plan exactly up to 95 sections, one per address where a sort or a source section begins |
| PeParser.Parse | upx-killer-engine/Core/PE/Parsing/PeParser.cpp:115-141 | For any bytes the checks give `Outcome` with the source's order of errors |
| PeParser.ParseTyped | upx-killer-engine/Core/PE/Parsing/PeParser.cpp:26-111 | The section loop with its running end collects all sections or fails at the first bad one; PeParser.ParseGuarantees says what a parsed layout satisfies |
| PeParser.ParseGuarantees | upx-killer-engine/Core/PE/Parsing/PeParser.cpp:42-109 | Every parsed layout has power-of-two alignments, ordered in-image sections and an in-image entry point |
| PeParserLaws.ParseIsExact | upx-killer-engine/Core/PE/Parsing/PeParser.cpp:26-141 | The parser returns p exactly when every field of p stands at its PE/COFF offset in the file and the file meets every demand in numbers |
| RebuiltImportLaws.RebuiltImportsAccepted | upx-killer-engine/Core/PE/Imports/ImportTableValidator.cpp:68-147 | The fixed image passes the import validator if and only if every module has fewer than 65,536 symbols and the IAT span lies in one section (or there are no imports) |
| RebuiltImportLaws.RebuiltImportsReadBack | upx-killer-engine/Core/PE/Fixing/PeImageFixer.cpp:269-375 | Walking descriptors and lookup thunks of the fixed image reads back every module name, first thunk, hint, name and ordinal in plan order |
| RebuiltImportLaws.RebuiltSlotsBound | upx-killer-engine/Core/PE/Fixing/PeImageFixer.cpp:324-338 | Every IAT slot of the fixed image equals its lookup thunk |
| RebuiltImportLaws.OneSectionSuffices | upx-killer-engine/Core/PE/Imports/ImportTableValidator.cpp:141-142 | One rebuilt section that holds every IAT range makes the IAT check pass |
| RebuiltImportLaws.IatInOneSectionIff | upx-killer-engine/Core/PE/Imports/ImportTableValidator.cpp:141-142 | The IAT check passes if and only if one section of the rebuilt layout holds every IAT range of the plan |
| ImportPlanLaws.PlanAcceptedIff | upx-killer-engine/Core/PE/Fixing/PeImageFixer.cpp:276-348 | The module loop accepts a plan if and only if its modules are well shaped, every symbol has exactly one of name and ordinal, every slot lies in one section, and no two IAT ranges overlap |
| DiscoveredImportLaws.DiscoveredPlanAcceptedIff | upx-killer-engine/Core/PE/Fixing/PeImageFixer.cpp:276-348 | The module loop accepts a discovered plan if and only if each of its slots lies in one section |
| DiscoveredImportLaws.DiscoveredPlanIsTabled | upx-killer-engine/Core/PE/Fixing/PeImageFixer.cpp:263-348 | In the assembly of rebuilt sections, a discovered plan is refused only for a slot that no single section holds |
| DiscoveredImportLaws.DiscoveredImportsAccepted | upx-killer-engine/Core/PE/Imports/ImportTableValidator.cpp:68-147 | A rebuilt file with discovered imports passes the import validator if and only if there are none or one section holds every IAT range |
| ImportLimitExample.CrowdedModuleIsRefused | upx-killer-engine/Core/PE/Imports/ImportTableValidator.cpp:112-138 | A capture and a plan of 65,536 symbols that the fixer rebuilds into a loadable file whose import table the validator refuses |
| ImportTableLaws.PlanIsStored | upx-killer-engine/Core/PE/Fixing/PeImageFixer.cpp:276-348 | After the module loop every descriptor, lookup list, name and IAT slot of the plan stands where the table says |
| ImportTableLaws.PlanFrame | upx-killer-engine/Core/PE/Fixing/PeImageFixer.cpp:324-338 | The module loop changes no image byte outside the IAT slots of the plan |
| ImportTableBuilder.BuildImports | upx-killer-engine/Core/PE/Fixing/PeImageFixer.cpp:276-348 | Growing the table, patching the file and collecting IAT ranges module by module gives the tables of ImportTableLaws.PlanIsStored, or the error of the first bad module |
| ImportTableBuilder.WriteSymbols | upx-killer-engine/Core/PE/Fixing/PeImageFixer.cpp:305-339 | Per symbol the name is appended and the thunk is written to both the lookup list and the IAT slot |
| ImportTableValidator.Validate | upx-killer-engine/Core/PE/Imports/ImportTableValidator.cpp:68-147 | For any bytes the descriptor loop with its flags decides `Valid`, which RebuiltImportLaws.RebuiltImportsAccepted characterises for rebuilt files |
| ImportTableValidator.ValidateThunks | upx-killer-engine/Core/PE/Imports/ImportTableValidator.cpp:112-138 | The bounded thunk loop accepts exactly a list that ends within 65,536 entries and whose names and slots lie in sections |
| ImportTableValidator.FindRaw | upx-killer-engine/Core/PE/Imports/ImportTableValidator.cpp:21-29 | The search returns the file offset given by the first section whose extent holds the whole range, or none |
| ImportValidityLaws.ValidIsExact | upx-killer-engine/Core/PE/Imports/ImportTableValidator.cpp:21-147 | Accepted exactly when there are no delayed and bound imports and the table is a list of 20-byte descriptors up to an empty one, each with a name, an address list and a lookup list that ends before 65,536 entries, every entry by ordinal or with a hint and a terminated name, all in sections; without a table, no address directory |
| ImportValidityLaws.VerdictIsExact | upx-killer-engine/Core/PE/Validation/RebuiltPeImageValidator.cpp:9-46 | The final verdict and each of its four errors: parsed in the source format, imports that can be walked, fixed as the source or movable by a probe rebasing with the expected slots |
| ImportRoundTrip.ThunksAccepted | upx-killer-engine/Core/PE/Imports/ImportTableValidator.cpp:112-138 | A stored lookup list is accepted if and only if it has fewer than 65,536 symbols |
| ImportRoundTrip.DescriptorsAccepted | upx-killer-engine/Core/PE/Imports/ImportTableValidator.cpp:89-140 | The descriptor walk accepts a stored table if and only if every list is short enough |
| ImportDiscoveryLaws.PlanIsWellFormed | upx-killer-engine/Core/PE/Imports/ImportDiscovery.cpp:116-302 | Any discovered plan flattens to at most 16,384 strictly increasing, non-overlapping, in-image slots, each resolved from its dumped value, each with exactly one of name and ordinal |
| ImportDiscoveryLaws.FixerAcceptsThePlan | upx-killer-engine/Core/PE/Fixing/PeImageFixer.cpp:279-310 | The range, overlap and symbol-shape checks of the fixer never reject a discovered plan |
| ImportDiscoveryLaws.LaneScanIsExact | upx-killer-engine/Core/PE/Imports/ImportDiscovery.cpp:164-228 | The lane loop accepts exactly the positions of runs that count: declared, dense, or zero-bounded |
| ImportDiscoveryLaws.AllSlotsSound | upx-killer-engine/Core/PE/Imports/ImportDiscovery.cpp:120-275 | Every accepted slot lies in the dump, holds a known export address and overlaps no other |
| ImportDiscoveryLaws.SortedInOrder | upx-killer-engine/Core/PE/Imports/ImportDiscovery.cpp:282-283 | Sorting permutes the slots into address order |
| ImportDiscoveryLaws.BuildFlattens | upx-killer-engine/Core/PE/Imports/ImportDiscovery.cpp:284-299 | The grouped plan lists each slot once with its selected provider, in slot order |
| ImportDiscovery.Discover | upx-killer-engine/Core/PE/Imports/ImportDiscovery.cpp:71-306 | For any input the stages compose to `Outcome`; ImportPlanExactLaws.PlanIsExact says when that is a plan and which |
| ImportPlanExactLaws.PlanIsExact | upx-killer-engine/Core/PE/Imports/ImportDiscovery.cpp:71-306 | A plan exactly when the image can be searched, some slot exists where there is an import directory and every slot has a provider; it lists in address order exactly the scanned slots and the usable hints |
| ImportPlanExactLaws.RefusalsAreExact | upx-killer-engine/Core/PE/Imports/ImportDiscovery.cpp:71-306 | ImportsNotFound exactly without slots under an import directory; the other two errors only with their causes |
| ImportScanLaws.ScanIsExact | upx-killer-engine/Core/PE/Imports/ImportDiscovery.cpp:116-230 | On addresses: the slots are the 4-byte-aligned addresses of a scanned section (whole without an IAT directory, else its overlap) that hold a known export and are declared, have such a neighbour one pointer away, or stand between two zeros; the scan fails exactly on a bad IAT, overlapping slots or too many |
| ImportDiscovery.ScanSections | upx-killer-engine/Core/PE/Imports/ImportDiscovery.cpp:120-229 | Scanning section after section into one accepted set gives the slots that ImportScanLaws.ScanIsExact describes, or fails as it says |
| ImportDiscovery.ScanLane | upx-killer-engine/Core/PE/Imports/ImportDiscovery.cpp:165-227 | The address loop, which jumps over accepted runs and steps over rejected ones, adds exactly the positions of LaneScanIsExact |
| ImportDiscovery.RunEnd | upx-killer-engine/Core/PE/Imports/ImportDiscovery.cpp:185-194 | The run length is maximal: every position before its end is a candidate and the end is not |
| ImportDiscovery.AcceptRun | upx-killer-engine/Core/PE/Imports/ImportDiscovery.cpp:210-224 | Each new slot of a run is added once; an overlap with an accepted slot or slot number 16,385 stops the discovery |
| ImportDiscovery.ApplyHints | upx-killer-engine/Core/PE/Imports/ImportDiscovery.cpp:253-276 | Hints add usable new slots that overlap nothing; every other hint leaves a warning |
| ImportDiscovery.BuildPlan | upx-killer-engine/Core/PE/Imports/ImportDiscovery.cpp:284-299 | Slots are grouped into modules of adjacent slots of one provider; a slot without a provider makes the plan ambiguous |
| ImportProviderLaws.ContainsExactly | upx-killer-engine/Core/PE/Imports/Internal/ImportProviderResolver.cpp:46-83 | An address is known if and only if a usable export lies there |
| ImportProviderLaws.UnhintedResolvesUnique | upx-killer-engine/Core/PE/Imports/Internal/ImportProviderResolver.cpp:85-123 | Without a hint an address resolves to p if and only if every usable export there is p |
| ImportProviderLaws.ResolvedShape | upx-killer-engine/Core/PE/Imports/Internal/ImportProviderResolver.cpp:85-123 | What resolves has a module name and exactly one of name and ordinal |
| ImportProviderLaws.ForwarderSearchIsExact | upx-killer-engine/Core/PE/Imports/Internal/ImportProviderResolver.cpp:125-153 | The forwarder search succeeds if and only if a chain of fewer than eight forwardings leads to a contract observed at the address |
| ImportProviderLaws.NormalizeIsIdempotent | upx-killer-engine/Core/PE/Imports/Internal/ImportProviderResolver.cpp:11-16 | Normalising a module name twice changes nothing |
| ImportProviderExactLaws.HintedIsExact | upx-killer-engine/Core/PE/Imports/Internal/ImportProviderResolver.cpp:46-153 | Over the listed exports: a hint resolves exactly when an export lies at the address, no two contracts there answer to it, and one does or at most seven forwardings lead to one that does, or from an api-/ext- name to a module that has the symbol; the answer is the hinted symbol under the full lower-case module name |
| ImportProviderExactLaws.UnhintedIsExact | upx-killer-engine/Core/PE/Imports/Internal/ImportProviderResolver.cpp:46-123 | Without a hint an address resolves to p exactly when some export puts p there, by name or else ordinal, and no export puts anything else |
| ImportProviderResolver.Resolver.Resolve | upx-killer-engine/Core/PE/Imports/Internal/ImportProviderResolver.cpp:85-123 | The lookup is `Resolution`, which ImportProviderExactLaws.HintedIsExact and UnhintedIsExact characterise on the exports |
| ImportProviderResolver.Resolver.Matches | upx-killer-engine/Core/PE/Imports/Internal/ImportProviderResolver.cpp:125-153 | The recursive search with its early returns is `ForwarderMatches`, characterised by ForwarderSearchIsExact |
| ImportProviderResolver.Resolver.Contains | upx-killer-engine/Core/PE/Imports/Internal/ImportProviderResolver.cpp:81-83 | For the catalogue of any modules, the answer is yes if and only if one of them has a usable export at the address |
| ProcessImageDumper.Dump | upx-killer-engine/Core/Dumping/ProcessImageDumper.cpp:8-54 | Terminates for any reader; the in-place buffer ends as the concatenation of zero-filled reads that DumpTilesTheImage describes |
| DumpLaws.DumpIsExact | upx-killer-engine/Core/Dumping/ProcessImageDumper.cpp:8-54 | InvalidImage exactly for a wrong, zero or excessive size; otherwise a dump exactly when the debuggee describes a region at every stop of the walk, with one region per stop, the rights it reported, the bytes it read, zeros elsewhere and exactly the due warnings |
| ProcessImageDumper.DumpTilesTheImage | upx-killer-engine/Core/Dumping/ProcessImageDumper.cpp:19-50 | For any reader the regions are consecutive, nonempty and sum to the image size, read bytes are the reader's and unread bytes are zero |
| ProcessImageDumper.DumpedRegionsAreAccepted | upx-killer-engine/Core/PE/Sections/SectionLayoutRebuilder.cpp:458-464 | The region check of the section rebuilder never rejects a dump |
| SoftwareBreakpointSet.BreakpointSet.Install | upx-killer-engine/Infrastructure/Windows/Debugging/SoftwareBreakpointSet.cpp:14-35 | Sets a trap unless one is recorded, records the byte it hides, and keeps the memory underneath all traps, also where the debuggee overwrote an earlier trap |
| SoftwareBreakpointSet.BreakpointSet.Restore | upx-killer-engine/Infrastructure/Windows/Debugging/SoftwareBreakpointSet.cpp:44-59 | Gives the hidden byte back and forgets exactly that breakpoint, or changes nothing; the other traps keep standing if they stood |
| SoftwareBreakpointSet.BreakpointSet.RestoreAll | upx-killer-engine/Infrastructure/Windows/Debugging/SoftwareBreakpointSet.cpp:6-12 | The destructor empties the set and gives back the hidden byte at every writable address, whether or not its trap still stands |
| SoftwareBreakpointSet.BreakpointSet.Count | upx-killer-engine/Infrastructure/Windows/Debugging/SoftwareBreakpointSet.h:24-24 | The number of distinct addresses with a breakpoint; zero if and only if no address has one |
| SoftwareBreakpointSet.BreakpointSet.Find | upx-killer-engine/Infrastructure/Windows/Debugging/SoftwareBreakpointSet.cpp:36-42 | Finds the breakpoint of an address, if any |
| SoftwareBreakpointSet.InstallConserves | upx-killer-engine/Infrastructure/Windows/Debugging/SoftwareBreakpointSet.cpp:14-35 | Setting a trap keeps the consistency of the set and hides nothing of the memory underneath |
| SoftwareBreakpointSet.RestoreConserves | upx-killer-engine/Infrastructure/Windows/Debugging/SoftwareBreakpointSet.cpp:44-59 | Restoring keeps the consistency of the set, the memory underneath, and every other breakpoint |
| DebugSessionLaws.SessionIsHonest | upx-killer-engine/Infrastructure/Windows/Debugging/WindowsDebugSession.cpp:151-368 | Over every event sequence the callback runs at most once, and success is reported if and only if it ran and returned true |
| DebugSessionLaws.DiscoveryIsSafe | upx-killer-engine/Infrastructure/Windows/Debugging/WindowsDebugSession.cpp:275-341 | In discovery mode every capture rests on two events of the run, a hit of the packed entry and a later hit of the captured candidate, on the same thread and stack pointer and after attach validation, and on a meaningful change from the baseline taken at that entry in the image located then to the bytes at the hit |
| DebugSessionExactLaws.ExplicitIsExact | upx-killer-engine/Infrastructure/Windows/Debugging/WindowsDebugSession.cpp:151-368 | With a given entry, c is captured exactly when some handled hit at base + entry of the image located last, in an executable or at process attach, commits its context and reads its imports where wanted, and c is that hit; the run then ends as the callback answered |
| DebugDiscoveryExactLaws.DiscoveryIsExact | upx-killer-engine/Infrastructure/Windows/Debugging/WindowsDebugSession.cpp:275-341 | In a discovery run that locates the image once, c is captured exactly when a candidate is hit on the entry thread and stack, after attach validation, with changed bytes and its trap still standing, and c is that hit |
| DebugWindowLaws.WindowsAreExact | upx-killer-engine/Infrastructure/Windows/Debugging/WindowsDebugSession.cpp:275-341 | The two windows of a discovery capture, sixteen bytes each and byte by byte from the events: before, the memory at the entry hit without the entry trap, but 0xcc at an earlier candidate transfer; after, the memory at the hit, with the byte under its trap |
| DebugSessionExactLaws.EndingIsExact | upx-killer-engine/Infrastructure/Windows/Debugging/WindowsDebugSession.cpp:151-368 | A run ends with an error exactly when the first event with a verdict has that one; an invalid hit has one only when no breakpoint is left |
| DebugSessionExactLaws.StartIsExact | upx-killer-engine/Infrastructure/Windows/Debugging/WindowsDebugSession.cpp:108-119 | Which requests start and with which error the others end at once |
| DebugSessionMemoryLaws.DiscoveryIsExactIff | upx-killer-engine/Infrastructure/Windows/Debugging/WindowsDebugSession.cpp:275-341 | Over all runs that locate the image once, every capture rests on a change that the debuggee itself made in the validation window, if and only if no window of a candidate that can be hit holds the transfer of another |
| DebugSessionMemoryLaws.DiscoverySeesRealChange | upx-killer-engine/Infrastructure/Windows/Debugging/WindowsDebugSession.cpp:288-336 | With such windows the bytes before and after of every capture are those underneath all traps at the two hits, and they differ |
| DebugSessionMemoryLaws.PrepareSees | upx-killer-engine/Infrastructure/Windows/Debugging/WindowsDebugSession.cpp:288-301 | A baseline holds exactly the memory at the packed entry, except a trap at the transfer of every earlier candidate inside its window |
| DebugSessionMemoryLaws.BaselineIsUntouchedIff | upx-killer-engine/Infrastructure/Windows/Debugging/WindowsDebugSession.cpp:288-301 | With no breakpoint set before, baseline k is untouched memory for every base and memory if and only if no earlier transfer lies in its window |
| DebugSessionMemoryLaws.CapturedBytesAreOwn | upx-killer-engine/Infrastructure/Windows/Debugging/WindowsDebugSession.cpp:303-336 | For one justified capture: with the image located once and a clear window, the bytes before and after are those underneath the traps at the two hits, and they differ |
| DebugSessionMemoryLaws.TrapCountsAsChange | upx-killer-engine/Infrastructure/Windows/Debugging/WindowsDebugSession.cpp:288-336 | For every request with another transfer in a window: a run with one image that ends in a successful capture although the memory of the debuggee never changes; what the session saw change is its own trap |
| DebugSessionLaws.CaptureStep | upx-killer-engine/Infrastructure/Windows/Debugging/WindowsDebugSession.cpp:303-336 | A step that runs the callback hit a candidate on the entry thread and stack after attaching, and hands over the bytes at that hit, which differ meaningfully from the recorded baseline |
| WindowsDebugSession.Capturing | upx-killer-engine/Infrastructure/Windows/Debugging/WindowsDebugSession.cpp:151-368 | The event loop over the session object ends as `Run`, whose captures and errors DebugSessionExactLaws and DebugDiscoveryExactLaws give exactly |
| WindowsDebugSession.DebugSession.Handle | upx-killer-engine/Infrastructure/Windows/Debugging/WindowsDebugSession.cpp:172-367 | One event updates the fields of the session as `Step` says, on which ExplicitIsExact, DiscoveryIsExact and EndingIsExact rest |
| ElfRebuildLaws.ParsedLayoutComesBack | upx-killer-engine/Core/ELF/Reconstruction/ElfImageRebuilder.cpp:82-263 | For a layout that a parser returned, parsing the rebuilt file gives the same layout apart from its section table if and only if the captured bytes carry the identification of the class and the image type is kept (no DT_SONAME in a position-independent executable) |
| ElfRebuildLaws.TypeOfCaptured | upx-killer-engine/Core/ELF/Parsing/Internal/ElfImageTypeClassifier.cpp:26-60 | Where dynamic tables are clear of the program headers, the captured bytes alone decide whether the image type is kept |
| ElfSonameExample.SonameMakesSharedObject | upx-killer-engine/Core/ELF/Parsing/Internal/ElfImageTypeClassifier.cpp:26-60 | A captured position-independent executable with DT_SONAME, well formed and clear of the headers, whose rebuild succeeds and parses as a shared object |
| ElfRebuildLaws.RebuiltParsesBack | upx-killer-engine/Core/ELF/Parsing/ElfParser.cpp:51-167 | For any well-formed layout: parsing back gives the same layout if and only if the captured bytes identify the class and give the type |
| ElfRebuildLaws.CapturedBytesSurvive | upx-killer-engine/Core/ELF/Reconstruction/ElfImageRebuilder.cpp:105-113 | Every captured byte outside the ELF header and the program headers is in the rebuilt file at its file offset |
| ElfRebuildLaws.ParsedIsWellFormed | upx-killer-engine/Core/ELF/Parsing/ElfParser.cpp:89-155 | Every parsed layout has a bounded header table, a load, valid loads and a type that suits its entry point |
| ElfRoundTripLaws.RebuiltIsAccepted | upx-killer-engine/Core/ELF/Validation/ElfImageValidator.cpp:9-44 | For a well-formed, identified capture, the validator accepts a successful rebuild if and only if its entry point suits some image type |
| ElfRoundTripLaws.FaithfulRebuildParsesAlike | upx-killer-engine/Core/ELF/Reconstruction/ElfImageRebuilder.cpp:82-263 | Capturing the loads of a parsed file and rebuilding gives a file that parses to the same layout, section table aside, and that the validator accepts |
| ElfRoundTripLaws.FaithfulRebuildKeepsTheFile | upx-killer-engine/Core/ELF/Reconstruction/ElfImageRebuilder.cpp:105-258 | Capturing the loads of a parsed file and rebuilding reproduces every loaded byte of the file, headers included, except the ELF header fields that describe the section table |
| ElfRoundTripLaws.SectionTableIsConsistent | upx-killer-engine/Core/ELF/Reconstruction/ElfImageRebuilder.cpp:180-258 | Read through e_shoff, e_shnum and e_shstrndx, the rebuilt file describes every section: its fields, its name inside the section that e_shstrndx announces, and a link to a section of the linked name and kind; the last entry is the name table itself |
| ElfFileLaws.FlatHoldsSegments | upx-killer-engine/Core/ELF/Reconstruction/ElfImageRebuilder.cpp:94-112 | Every file-backed load is in the flat image in full, for every copy order |
| ElfFileLaws.FinishKeeps | upx-killer-engine/Core/ELF/Reconstruction/ElfImageRebuilder.cpp:192-258 | Appending names and section table touches no captured byte except the section fields of the ELF header |
| ElfSectionTableLaws.TableReadsBack | upx-killer-engine/Core/ELF/Reconstruction/ElfImageRebuilder.cpp:210-248 | Decoding the emitted section table yields the section list and then the name table |
| ElfSectionTableLaws.NamesLeadToText | upx-killer-engine/Core/ELF/Reconstruction/ElfImageRebuilder.cpp:180-191 | Each name offset leads to the NUL-terminated name of that section |
| ElfSectionTableLaws.LinksResolve | upx-killer-engine/Core/ELF/DynamicLinking/ElfDynamicMetadataAnalyzer.cpp:77-125 | Every link resolves to a section of the linked name and kind |
| ElfImageRebuilder.Rebuild | upx-killer-engine/Core/ELF/Reconstruction/ElfImageRebuilder.cpp:82-263 | For any capture and copy order the stages compose to `Outcome`; ElfAcceptanceLaws.RebuildIsExact says when it is an error and which, ElfSectionContentLaws.RebuiltTableIsExact what the section table says |
| ElfAcceptanceLaws.RebuildIsExact | upx-killer-engine/Core/ELF/Reconstruction/ElfImageRebuilder.cpp:82-263 | A file exactly when every load was captured whole, the loads and the headers fit the limit, the dynamic metadata can be analysed and every value fits the class; otherwise the error of the first failing demand |
| ElfAcceptanceLaws.GapsAreZero | upx-killer-engine/Core/ELF/Reconstruction/ElfImageRebuilder.cpp:82-115 | Before the end of the loads, every byte that no load and no header covers is zero |
| ElfSectionContentLaws.RebuiltTableIsExact | upx-killer-engine/Core/ELF/Reconstruction/ElfImageRebuilder.cpp:117-258 | Read through e_shoff: for every load with file bytes a PROGBITS entry with its address, offset and size, ALLOC, EXECINSTR and WRITE by its flags; for the rest of its memory a NOBITS entry; entries for interpreter, dynamic and TLS headers and the dynamic tables; no others; names, alignments and links |
| ElfImageRebuilder.MeasureLoads | upx-killer-engine/Core/ELF/Reconstruction/ElfImageRebuilder.cpp:94-103 | The loop finds the largest end of a file-backed load, or reports a load that is missing, of the wrong size or overflowing |
| ElfImageRebuilder.CopySegments | upx-killer-engine/Core/ELF/Reconstruction/ElfImageRebuilder.cpp:107-112 | Copying the segments into one buffer in the given order gives the image that ElfFileLaws.FlatHoldsSegments describes |
| ElfImageRebuilder.FinishImage | upx-killer-engine/Core/ELF/Reconstruction/ElfImageRebuilder.cpp:180-258 | Appending names and writing the section table in place gives the file that ElfSectionTableLaws decodes, with the source's size checks |
| ElfSections.BuildSections | upx-killer-engine/Core/ELF/Reconstruction/ElfImageRebuilder.cpp:117-178 | One pass with three ordinals over the loads and one over the special headers lists all sections; ElfSectionContentLaws.RebuiltTableIsExact ties the list to the program headers |
| ElfSections.BuildNames | upx-killer-engine/Core/ELF/Reconstruction/ElfImageRebuilder.cpp:180-191 | The name loop gives the table in which every recorded offset starts the name of its section |
| ElfHeaderWriter.Write | upx-killer-engine/Core/ELF/Reconstruction/Internal/ElfHeaderWriter.cpp:31-80 | Writes the fields in place in order; stops with a refusal at the first value or offset that does not fit |
| ByteFields.WriteValue | upx-killer-engine/Core/ELF/Reconstruction/Internal/ElfHeaderWriter.cpp:10-18 | Writes one little-endian field in place and touches nothing else, or refuses and changes nothing |
| ElfHeaderLaws.RewritingIsIdentity | upx-killer-engine/Core/ELF/Reconstruction/Internal/ElfHeaderWriter.cpp:31-80 | Parse, then write: writing a parsed layout over its own file succeeds and changes no byte |
| ElfHeaderLaws.HeaderRead | upx-killer-engine/Core/ELF/Reconstruction/Internal/ElfHeaderWriter.cpp:41-58 | The parser reads back every ELF header field that the writer stored |
| ElfHeaderLaws.ProgramsRead | upx-killer-engine/Core/ELF/Reconstruction/Internal/ElfHeaderWriter.cpp:59-78 | The parser reads back every program header that the writer stored |
| ElfParser.Parse | upx-killer-engine/Core/ELF/Parsing/ElfParser.cpp:51-167 | For any bytes the checks give `Outcome` with the source's order of errors |
| ElfParser.ParseClass | upx-killer-engine/Core/ELF/Parsing/ElfParser.cpp:64-166 | The header loop with its two flags collects all program headers, or fails at the first invalid load; ElfRebuildLaws.ParsedIsWellFormed says what a layout satisfies |
| ElfParserLaws.ParseIsExact | upx-killer-engine/Core/ELF/Parsing/ElfParser.cpp:51-167 | For any bytes: the layout read at the gABI offsets of its class, or the error of the first demand in numbers that fails |
| ElfParserLaws.AcceptedAs | upx-killer-engine/Core/ELF/Parsing/ElfParser.cpp:51-167 | A file is accepted as p exactly when it meets every demand, stores p, and the type of p follows from e_type, the entry point and DT_SONAME |
| ElfImageTypeClassifier.FindSoname | upx-killer-engine/Core/ELF/Parsing/Internal/ElfImageTypeClassifier.cpp:26-48 | The tag loops decide whether a readable dynamic table has DT_SONAME before its end |
| ElfImageTypeClassifier.SonameDependsOnTables | upx-killer-engine/Core/ELF/Parsing/Internal/ElfImageTypeClassifier.cpp:26-48 | The answer depends only on the dynamic tables |
| ElfDynamicMetadataAnalyzer.Analyze | upx-killer-engine/Core/ELF/DynamicLinking/ElfDynamicMetadataAnalyzer.cpp:41-128 | The cursor loop keeps the first value of each tag; the sections derived from them are those that AnalysisDescribes describes |
| ElfDynamicMetadataAnalyzer.AnalysisDescribes | upx-killer-engine/Core/ELF/DynamicLinking/ElfDynamicMetadataAnalyzer.cpp:77-125 | The analysis yields .dynstr, then .dynsym linked to it, then relocation tables linked to .dynsym, all inside the image |
| ElfDynamicLaws.AnalysisIsExact | upx-killer-engine/Core/ELF/DynamicLinking/ElfDynamicMetadataAnalyzer.cpp:41-128 | In literal tags and entry sizes: no dynamic header gives no sections; otherwise exactly the described tables, or the error of the first table that is missing, misshapen or not mapped by a load |
| ElfDynamicMetadataAnalyzer.AnalysisSurvives | upx-killer-engine/Core/ELF/DynamicLinking/ElfDynamicMetadataAnalyzer.cpp:41-128 | A successful analysis gives the same result on any longer buffer that keeps the dynamic table |
| ElfImageValidator.Validate | upx-killer-engine/Core/ELF/Validation/ElfImageValidator.cpp:9-44 | The header loop with its early returns decides the verdict that ElfRoundTripLaws.RebuiltIsAccepted characterises for rebuilt files |
| ElfVerdictLaws.VerdictIsExact | upx-killer-engine/Core/ELF/Validation/ElfImageValidator.cpp:9-44 | The verdict and each of its errors: parsed whole, file bytes of the loads in the file, dynamic metadata that can be analysed, and a section table whose e_shstrndx is one of its entries |
| NormalizationLaws.NormalizationUndoesLoading | upx-killer-engine/Core/ELF/SharedObjects/LoadedSharedObjectNormalizer.cpp:49-145 | For a load bias at or above the image span, whatever subset of address entries the loader biased and whatever DT_DEBUG it stored, normalisation returns the original capture and is idempotent |
| NormalizationLaws.NormalizationUndoesLoadingIff | upx-killer-engine/Core/ELF/SharedObjects/LoadedSharedObjectNormalizer.cpp:49-145 | For any bias, normalisation returns the original capture if and only if every address entry that the loader left alone is below the bias or the bias is 0 |
| NormalizationLaws.WalkRestoresIff | upx-killer-engine/Core/ELF/SharedObjects/LoadedSharedObjectNormalizer.cpp:114-138 | The entry walk restores the bytes of the file if and only if every address that the loader left alone is below the bias or the bias is 0 |
| NormalizationLaws.WalkFrame | upx-killer-engine/Core/ELF/SharedObjects/LoadedSharedObjectNormalizer.cpp:114-138 | The entry walk changes nothing but values of entries before the terminator |
| NormalizationLaws.UnbiasedSurvivesIff | upx-killer-engine/Core/ELF/SharedObjects/LoadedSharedObjectNormalizer.cpp:128-132 | An address that the loader left alone survives if and only if it is below the bias or the bias is 0 |
| NormalizationLaws.SmallBiasMovesAddresses | upx-killer-engine/Core/ELF/SharedObjects/LoadedSharedObjectNormalizer.cpp:49-145 | A capture that no loader touched, with a bias inside the image, which normalisation does not return |
| NormalizationExactLaws.NormalizationIsExact | upx-killer-engine/Core/ELF/SharedObjects/LoadedSharedObjectNormalizer.cpp:49-145 | Every byte and every refusal: which captures are normalised, the value of every dynamic entry before and after, the entry point and all that stays |
| NormalizationExactLaws.AddressTagsAre | upx-killer-engine/Core/ELF/SharedObjects/LoadedSharedObjectNormalizer.cpp:17-19 | The entries that hold addresses are those with sixteen literal tags |
| LoadedSharedObjectNormalizer.Normalize | upx-killer-engine/Core/ELF/SharedObjects/LoadedSharedObjectNormalizer.cpp:49-145 | The checks and the rewriting together give `Outcome`, which NormalizationExactLaws.NormalizationIsExact describes and NormalizationLaws.NormalizationUndoesLoading inverts |
| LoadedSharedObjectNormalizer.Rewrite | upx-killer-engine/Core/ELF/SharedObjects/LoadedSharedObjectNormalizer.cpp:114-138 | The cursor loop rewrites values in place up to the terminator, and fails on a value that does not fit or a missing terminator |
| LoadBiasResolver.Resolve | upx-killer-elf-host/Infrastructure/Linux/Debugging/Recovery/RecoveredElfLoadBiasResolver.cpp:32-60 | Returns b if and only if b is the only bias that an anchor suggests and for which all loads are covered |
| LoadBiasLaws.BiasIsExact | upx-killer-elf-host/Infrastructure/Linux/Debugging/Recovery/RecoveredElfLoadBiasResolver.cpp:11-60 | Only b is such that a PT_LOAD at file offset 0 of 16 bytes or more puts the file header at its address and every PT_LOAD crosses, from first to last file byte, mappings readable, executable and not writable as its flags say |
| LoadBiasResolver.RangeCovered | upx-killer-elf-host/Infrastructure/Linux/Debugging/Recovery/RecoveredElfLoadBiasResolver.cpp:11-28 | The cursor loop terminates for any mappings and decides the walk that WalkIsExactIff characterises |
| LoadBiasResolver.WalkIsExactIff | upx-killer-elf-host/Infrastructure/Linux/Debugging/Recovery/RecoveredElfLoadBiasResolver.cpp:11-28 | The walk decides for every range whether each of its addresses is suitably mapped, if and only if no unsuitable mapping stands before a suitable one for the same address |
| LoadBiasResolver.WalkedIsHeld | upx-killer-elf-host/Infrastructure/Linux/Debugging/Recovery/RecoveredElfLoadBiasResolver.cpp:11-28 | Whatever the mappings, every address of a range that the walk accepts lies in a mapping of suitable permissions |
| LoadBiasResolver.CoveredExactly | upx-killer-elf-host/Infrastructure/Linux/Debugging/Recovery/RecoveredElfLoadBiasResolver.cpp:11-28 | Over disjoint mappings the walk succeeds if and only if every address of the range lies in a mapping of suitable permissions |
| LoadBiasResolver.CoveredIsPlaced | upx-killer-elf-host/Infrastructure/Linux/Debugging/Recovery/RecoveredElfLoadBiasResolver.cpp:42-54 | A covered bias places every load on suitable mappings without overflow, whatever the mappings; where no suitable mapping is hidden the two are equivalent |
| LoadBiasResolver.OverlapHidesPermissions | upx-killer-elf-host/Infrastructure/Linux/Debugging/Recovery/RecoveredElfLoadBiasResolver.cpp:17-24 | With overlapping mappings the walk can refuse a range whose every address is suitably mapped |
| EngineHostCodecLaws.CodecIsBijective | upx-killer-contracts/Protocol/EngineHost/EngineHostCodec.cpp:260-452 | A frame is accepted as message m if and only if it is the frame that m encodes to |
| EngineHostCodecLaws.EncodedDecodes | upx-killer-contracts/Protocol/EngineHost/EngineHostCodec.cpp:321-452 | Decoding an encoded message returns it |
| EngineHostCodecLaws.DecodedEncodes | upx-killer-contracts/Protocol/EngineHost/EngineHostCodec.cpp:321-452 | Every accepted frame is the encoding of its message |
| EngineHostMessages.WordsAreExact | upx-killer-contracts/Protocol/EngineHost/EngineHostCodec.cpp:77-258 | Every wire word stands for at most one enum value, which encodes to it again |
| EngineHostWireLaws.FrameIsExact | upx-killer-contracts/Protocol/EngineHost/EngineHostCodec.cpp:77-452 | Every message in literal words: "UPXK", version 7, its kind, the payload length and each field in order as little-endian numbers, counted strings and counted lists; a frame exists exactly up to the literal limits |
| EngineHostBuffers.Encode | upx-killer-contracts/Protocol/EngineHost/EngineHostCodec.cpp:321-339 | Pushing field after field into one buffer gives the frame of CodecIsBijective, or refuses an oversized string, collection or frame |
| EngineHostBuffers.DecodePayload | upx-killer-contracts/Protocol/EngineHost/EngineHostCodec.cpp:353-452 | Advancing one offset through the payload, refusing trailing bytes, gives the message of CodecIsBijective |
| EngineHostBuffers.DecodeHeader | upx-killer-contracts/Protocol/EngineHost/EngineHostCodec.cpp:341-351 | Accepts exactly 16 bytes with the magic, the version and a bounded size |
| EngineHostBuffers.FrameWriter.AppendPayload | upx-killer-contracts/Protocol/EngineHost/EngineHostCodec.cpp:260-317 | Fills an empty buffer with the payload of the message, or refuses exactly a message with an oversized string or collection |
| EngineHostBuffers.FrameReader.ReadString | upx-killer-contracts/Protocol/EngineHost/EngineHostCodec.cpp:56-65 | Reads a length and that many bytes and advances past both, or fails on a string that is too long or cut off |
| PipeLaws.StreamsSurviveChunking | upx-killer-elf-host/Infrastructure/Linux/Pipes/PosixPipeTransport.cpp:11-50 | What one end writes the other end reads, the same messages in order, for every way of cutting and interrupting the transfers |
| PipeLaws.ClientStopsAtResult | upx-killer/Infrastructure/EngineHost/Process/EngineHostProcessSession.cpp:246-265 | The client loop ends on the first result, having forwarded exactly the progress before it |
| PipeLaws.ClientConsumes | upx-killer/Infrastructure/EngineHost/Process/EngineHostProcessSession.cpp:246-265 | The client loop handles exactly the messages sent, for every chunking |
| PipeLaws.TakeGets | upx-killer-elf-host/Infrastructure/Linux/Pipes/PosixPipeTransport.cpp:11-20 | A whole buffer is read in order however the reads are cut |
| PipeLaws.SendPuts | upx-killer-elf-host/Infrastructure/Linux/Pipes/PosixPipeTransport.cpp:22-31 | A whole buffer is written in order however the writes are cut |
| PipeTransport.Pipe.ReadExact | upx-killer-elf-host/Infrastructure/Linux/Pipes/PosixPipeTransport.cpp:11-20 | Fills the buffer from the stream, or fails, as the schedule of reads says |
| PipeTransport.Pipe.WriteExact | upx-killer-elf-host/Infrastructure/Linux/Pipes/PosixPipeTransport.cpp:22-31 | Drains the buffer to the stream, or fails, as the schedule of writes says |
| PipeTransport.Pipe.Read | upx-killer-elf-host/Infrastructure/Linux/Pipes/PosixPipeTransport.cpp:35-44 | Receives one message, or none where the frame is incomplete or malformed |
| PipeTransport.RunClient | upx-killer/Infrastructure/EngineHost/Process/EngineHostProcessSession.cpp:246-265 | The loop forwards progress events and ends as `Consume` says, which ClientStopsAtResult characterises |

## Left out

- SectionLayoutRebuilder: code, TLS and export discovery, the embedded original header and tail-transfer search are heuristic scanners; their ranges are inputs (`Discovery`).
- ImportDiscovery: `SourceImportLayout` and `UpxImportHint` are scanners; their occupied ranges, providers and hints are inputs. `PlanIsWellFormed` and `FixerAcceptsThePlan` take hints that carry exactly one of name and ordinal.
- PeImageFixer: rewrites file buffers as values passed along; a section table that would run past the buffer is undefined in the source and an error here. The rewriting of single header fields is one update of a field list.
- ElfImageRebuilder: the segment walk follows an unordered map, so its order is a parameter and the theorems hold for every order; a copy past the buffer is undefined in the source and a failure here.
- LoadedSharedObjectNormalizer: copies the segment's bytes in and out, so the aliasing of the span with the capture is not captured. On an error path the half-rewritten capture is part of the result.
- ImportProviderResolver: splitting the text of a forwarder into module and symbol is not modelled; a forwarded export carries its parsed target, if the text has one.
- EngineHostCodec: paths are opaque byte strings, so UTF-8 conversion is not modelled; enum values outside the declared ones do not exist.
- DebugSession: process launch, staging, module catalogue contents, native error codes and the drain after termination are outside; the clock and the stop token are one `Stop` event, thread contexts and memory are answers attached to each event. Candidate lists have at most 32 entries, the bound of the locator that makes them. A run may locate the image again; the debugger follows one process (DebugProcess.cpp:40), so `DiscoveryIsExactIff` speaks of runs that locate it once.
- DebugSession breakpoints: the session keeps them as values; the class with its owned process memory is proved by itself in `SoftwareBreakpointSet`. Instruction-cache flushes succeed.
- PipeTransport: a schedule is a finite list of short transfers, interruptions, failures and end of file; the Windows pipe end has the same loops and is not modelled again.
- ProcessImageDumper: the reader is a pair of functions that answer the same question the same way.
- Allocation failure and exceptions other than the modelled errors.
- Coordinator, artifact publication, capability tables, error translators, packer detection, WSL hosting and the user interface: these parts are outside the model.
