# A verified model of the ELF32 dynamic linker and its guest memory

This project models, in Dafny, the parts of the runtime that load 32-bit Arm ELF images into a sparse
guest address space and link them, and proves what those parts promise over whole runs.

* **Guest memory.** `MappedGuestMemory` is a class with a page table, one byte buffer and an oracle for
  the host's `mprotect`/`madvise`. Its abstract value is a `Space` (a status and a byte per address).
  The page size is a parameter. Every read-only stage takes a `View`, the partial map from readable
  addresses to bytes, so its theorems hold for any backing memory.
* **Load pipeline.** Plan, layout, placement, mapping, copying, protecting, RELRO sealing; then the
  dynamic table, the linker metadata and the names. Each stage is shown to make the defensive errors of
  the next one unreachable.
* **Symbol search.** SysV and GNU hash indexes, both walks against a plain scan, version requirements,
  and the scope search against a breadth-first reference.
* **Relocation.** Planning, resolving and computing both tables, and the write phase with its verified
  rollback, over any memory whose failing write disturbs at most its own four bytes.
* **Dependency graphs and the link map.** The recursive load as a transaction over memory and graph, and
  the append operation of the persistent link map with its validity over every history.
* **Constructors and service dispatch.** The post-order plan over cyclic graphs, and the sliced
  execution loop against a single-step interpreter.

Code that works by changing things is a method or a class here and is proved equal to, or against, a
specification on values; the theorems are about those specifications. Where a stage decodes a format,
a theorem named `...Exact` or `...Meaning` gives its result by the bytes alone, usually as an
if-and-only-if: images, dynamic entries, metadata, hash indexes, symbols, versions, REL entries. Integers are unbounded: 32-bit
words are subset types, wrap-around is written out (`WrapAdd`, `WrapSub`), and guest address sums are
checked as in the source. Errors are datatypes, one constructor per error kind.

What is assumed of the outside world is only this: the host oracle may refuse any call; a provider may
answer anything, differently each time; a CPU step and a service handler are arbitrary functions of
registers and world. Where a result needs more it says so: `HostReleases` (no host call of an unmap
fails) for exact rollback, `HostGrants` (no `mprotect` of a map or protect fails) for the absence of
host-caused errors.

Findings, kept as they are in the code:

* `valid_page_range` adds in 64 bits; `PageRangeWrap` gives the exact family of lengths for which the sum
  wraps and a range outside the address space is accepted. `map`, `protect` and `unmap` then fail
  cleanly if a page ends their scan; `ScanLeavesTable` says that otherwise the scan reads past the
  page table, which is what their contracts ask callers to exclude.
* `R_ARM_ABS32` adds the addend to the symbol value with its Thumb bit; AAELF32 adds it without and then
  sets the bit. `Abs32FollowsAbi` gives the exact condition. `R_ARM_GLOB_DAT` and `R_ARM_JUMP_SLOT`
  ignore the word in place (a documented choice); `SlotsFollowAbi` says when that matters.
  `TableDiffersFromAbi` has the table bytes of an object where both differ.
* The comment on `append_elf32_link_map_root` (src/elf/elf32_dependency_loader.h:100) says the global
  scope is kept in insertion order; the code keeps it sorted by object index, and so does the model.
  `ScopeOrder` says exactly when the two orders part (a known object is promoted that a later object in
  the scope precedes by insertion), and `PromotionReorders` gives such a history.
* Some re-checks of the source cannot fire: the second byte-budget tests of the resolver and of
  `process_object`, the slice length test of the dispatcher, the permission re-read of the RELRO rollback
  and the address test inside the function-array loop. The model proves the fact each one guards and
  leaves the test out.

## Model

| member | source | states |
|---|---|---|
| `MappedMemory.PageRangeWrap` | src/memory/guest_memory.cpp:256-264 | the computed range test and the true one differ exactly for aligned ranges whose 64-bit sum wraps, with a concrete such range |
| `MappedMemory.ScanLeavesTable` | src/memory/guest_memory.cpp:128-139 | what the three operations ask of a length, and no more: without it, the accepted range has more pages than the table has left and no page of the table ends the scan |
| `MappedMemory.MappedGuestMemory.Map` | src/memory/guest_memory.cpp:128-149 | for every length whose page scan ends within the page table, wrapped sums included: success exactly changes the permissions of an aligned, wholly unmapped range; failure changes nothing; without host failure it fails only when the range cannot be mapped |
| `MappedMemory.MappedGuestMemory.Protect` | src/memory/guest_memory.cpp:151-173 | the same for a wholly mapped range |
| `MappedMemory.MappedGuestMemory.Unmap` | src/memory/guest_memory.cpp:175-201 | success unmaps exactly the range and zeroes it; a failure changes nothing or, after the discard, leaves the pages mapped with zero contents |
| `MappedMemory.MappedGuestMemory.ValidAccess` | src/memory/guest_memory.cpp:266-286 | the page scan decides that every address of the range is mapped with the permission |
| `MappedMemory.MappedGuestMemory.ReadBytes` | src/memory/guest_memory.cpp:203-211 | a read delivers exactly the bytes of the view, and fails exactly when an address is not readable |
| `MappedMemory.MappedGuestMemory.Write` | src/memory/guest_memory.cpp:223-231 | a write succeeds exactly on writable ranges and changes exactly those bytes |
| `MappedMemory.RangeIsFree` | src/elf/loading/elf32_loader.cpp:148-157 | probing one address per page decides that the whole range is unmapped |
| `VaAllocator.FindFreeRange` | src/memory/guest_va_allocator.cpp:17-81 | returns the least address in the window with the residue and a free range; NoSpace exactly when there is none; every candidate and candidate end stays within the address space, so no 64-bit sum wraps |
| `LoadPlans.PlanLoad` | src/elf/loading/elf32_load_plan.cpp:90-357 | the header loop, sorts and checks compute the plan function, error by error; what it accepts and returns, by the bytes of the image, is PlanExact |
| `LoadPlans.SortedOrder` | src/elf/loading/elf32_load_plan.cpp:308-325 | the order is a permutation of the non-empty segments sorted by page start |
| `LoadPlans.CheckDisjoint` | src/elf/loading/elf32_load_plan.cpp:308-325 | comparing neighbours in sorted order decides that all segments are pairwise page-disjoint |
| `LoadPlans.CheckDynamic` | src/elf/loading/elf32_load_plan.cpp:266-306 | the segment loop computes the PT_DYNAMIC verdict: enclosed, readable and file-backed at its offset |
| `LoadPlans.CheckRelros` | src/elf/loading/elf32_load_plan.cpp:327-352 | the page loop computes the RELRO verdict of every descriptor |
| `LoadPlans.PlanSound` | src/elf/loading/elf32_load_plan.cpp:90-357 | every returned plan is good: segments within the image and congruent, tight span, disjoint pages, dynamic and RELRO ranges backed by readable segments |
| `LoadPlans.PlanSegmentsAreLoads` | src/elf/loading/elf32_load_plan.cpp:150-264 | the planned segments are exactly the PT_LOAD headers in table order |
| `ImageHeaders.HeaderExact` | src/elf/loading/elf32_load_plan.cpp:93-145 | the header checks accept exactly ELF32 little-endian Arm images of type EXEC or DYN with their program headers in bounds; type, entry and table are the words at 16, 24, 28 and 44 |
| `ImageHeaders.SegmentExact` | src/elf/loading/elf32_load_plan.cpp:58-80 | a segment is read from a PT_LOAD header if and only if its offset, address, sizes and alignment are the header's words, read, write and execute are the flag bits 4, 2 and 1, and it is good |
| `ImageHeaders.PlanExact` | src/elf/loading/elf32_load_plan.cpp:90-357 | an image has a plan if and only if there is a good plan that describes its header bytes (every PT_LOAD, PT_DYNAMIC and RELRO header, entry, type, tight span, largest alignment), and that is the plan returned |
| `Placement.AlignmentSound` | src/elf/loading/elf32_dynamic_placement.cpp:38-60 | the alignment handed to the search is a multiple of the page size and of the required bias alignment, and the searched residue is page-aligned |
| `Placement.PlaceDynamic` | src/elf/loading/elf32_dynamic_placement.cpp:23-83 | each error exactly when its cause holds; the base returned is the least one the loader can use in the window |
| `Placement.PlacedBaseLoads` | src/elf/loading/elf32_dynamic_placement.cpp:38-82 | loading at a placed base on the same memory succeeds unless the entry point leaves the address space |
| `Placement.LoadedCongruence` | src/elf/loading/elf32_loader.cpp:44-146 | every loaded segment keeps guest address equal to file offset modulo its own alignment |
| `Loader.LayoutSound` | src/elf/loading/elf32_loader.cpp:44-146 | with a good plan the only layout errors are a bad base and an overflowing entry, and the layout is the plan shifted by the bias |
| `Loader.LoadedSpaceMeaning` | src/elf/loading/elf32_loader.cpp:159-222 | in the loaded memory each segment page has exactly its ELF permission, file bytes at their addresses and zeros elsewhere; other addresses are unchanged |
| `LoadImages.MapSegments` | src/elf/loading/elf32_loader.cpp:159-183 | maps the segments in order and reports exactly the ranges mapped so far; no failure without a host failure |
| `LoadImages.CopySegments` | src/elf/loading/elf32_loader.cpp:185-211 | copies the file bytes and the zero tail of every segment, and only those |
| `LoadImages.ProtectSegments` | src/elf/loading/elf32_loader.cpp:213-222 | gives every segment its final permission |
| `LoadImages.LoadElf32` | src/elf/loading/elf32_loader.cpp:33-242 | success leaves exactly the loaded memory; told by the image's bytes, every address on the pages of a PT_LOAD header has the permission of its flag bits and its file byte or zero, every other address is as before, and the load record is that of the headers shifted by the bias; failure restores the memory when the host releases pages; old pages are never touched; MapFailed, WriteFailed and ProtectFailed need a host failure |
| `LoadImages.InstalledMeaning` | src/elf/loading/elf32_loader.cpp:44-222 | the same of every installed image: memory and record by the header bytes; the requested base is where the lowest page goes, an executable is not moved |
| `Layers.Rollback` | src/elf/loading/elf32_loader.cpp:165-169 | reverse unmapping gives the base memory back when the host releases pages, and never touches pages the base maps |
| `Layers.LayeredTransitive` | src/elf/linking/elf32_dependency_loader.cpp:176-204 | loads on top of loads own pairwise disjoint ranges on top of the first memory |
| `DynamicTable.ParseDynamicSegment` | src/elf/metadata/elf32_dynamic.cpp:25-58 | the read loop computes the parse function |
| `DynamicTable.ParseAfterLoad` | src/elf/metadata/elf32_dynamic.cpp:25-58 | after a load, parsing decodes exactly the PT_DYNAMIC bytes of the image; the only errors are TruncatedEntry and Unterminated, both visible in the image |
| `ObjectMeaning.DecodeExact` | src/elf/metadata/elf32_dynamic.cpp:25-58 | the decoded table is exactly the list of pairs of words, the first a signed tag, up to and including the first tag 0 |
| `MetadataTables.CollectMetadata` | src/elf/metadata/elf32_linker_metadata.cpp:112-365 | the switch loop computes the collection function |
| `MetadataTables.CollectMeaning` | src/elf/metadata/elf32_linker_metadata.cpp:112-238 | collection is a function of the bag of entries before DT_NULL and the DT_NEEDED order |
| `MetadataTables.CollectedOrderFree` | src/elf/metadata/elf32_linker_metadata.cpp:112-365 | reordering the entries, keeping the order of DT_NEEDED, gives the same metadata or the same error |
| `MetadataTables.MetadataSound` | src/elf/metadata/elf32_linker_metadata.cpp:367-599 | after success every table is in range, readable and consistent, and name offsets lie in the string table, which is what the later stages rely on |
| `MetadataMeaning.MetadataExact` | src/elf/metadata/elf32_linker_metadata.cpp:112-599 | metadata is returned if and only if the entries are consistent, and it is then the metadata whose every field comes from its own tags before DT_NULL, rebased by the load bias, with every table in range |
| `MetadataTables.StringsAfterMetadata` | src/elf/metadata/elf32_linker_metadata.cpp:384-409 | after metadata success the names can fail only with UnterminatedString or StringTooLong, and there is one per DT_NEEDED |
| `Views.ReadableRange` | src/elf/metadata/elf32_linker_metadata.cpp:89-110 | probing in 256-byte chunks accepts exactly the readable ranges |
| `LinkerStrings.ReadStringEntry` | src/elf/metadata/elf32_linker_strings.cpp:30-99 | the chunk loop computes the reader function |
| `LinkerStrings.ReadFromBytes` | src/elf/metadata/elf32_linker_strings.cpp:52-96 | the chunked reader agrees with the byte-by-byte scan whenever its range is readable, and never succeeds with anything else |
| `LinkerStrings.ReadStringMeaning` | src/elf/metadata/elf32_linker_strings.cpp:30-99 | on a validated table it returns exactly the NUL-terminated string at the offset; otherwise there is no NUL or it is beyond the limit |
| `LinkerStrings.BuildStrings` | src/elf/metadata/elf32_linker_strings.cpp:101-137 | the aggregate loop computes soname and needed names in order |
| `ObjectMeaning.NamesExact` | src/elf/metadata/elf32_linker_strings.cpp:101-137 | on validated metadata, SONAME and the DT_NEEDED names are exactly the strings at their offsets, in order |
| `Versioning.WalkVerneed` | src/elf/linking/elf32_symbol_versioning.cpp:161-271 | the VERNEED loop computes the walk whose meaning in terms of the table bytes is WalkNeedsMeaning |
| `Versioning.WalkVerdef` | src/elf/linking/elf32_symbol_versioning.cpp:273-350 | the VERDEF loop computes the walk whose meaning in terms of the table bytes is WalkDefsMeaning |
| `Versioning.FindDependency` | src/elf/linking/elf32_symbol_versioning.cpp:93-111 | the edge loop finds the first dependency with the file name |
| `Versioning.RequirementWalk` | src/elf/linking/elf32_symbol_versioning.cpp:158-358 | for arbitrary table bytes: the records read are a prefix of the records of both tables and no more than the budget; the walk succeeds if and only if both tables are complete and in order and within the budget, and then it has read every record and chosen the last wanted VERDEF candidate, else the last wanted VERNAUX |
| `Versioning.WalkAuxMeaning` | src/elf/linking/elf32_symbol_versioning.cpp:215-258 | the VERNAUX walk succeeds exactly on a complete, readable chain within the budget and finds its last wanted candidate |
| `Versioning.WalkNeedsMeaning` | src/elf/linking/elf32_symbol_versioning.cpp:161-271 | the VERNEED walk succeeds exactly on records in order, each with a known file and its whole VERNAUX chain, within the budget, and finds the last wanted candidate of all chains |
| `Versioning.WalkDefsMeaning` | src/elf/linking/elf32_symbol_versioning.cpp:273-350 | the VERDEF walk succeeds exactly on records in order within the budget, base definitions skipped, and finds the last wanted definition |
| `Versioning.ChainsIncrease` | src/elf/linking/elf32_symbol_versioning.cpp:158-350 | whatever the bytes, the VERNEED chain, the VERDEF chain and every VERNAUX chain have strictly increasing addresses, and each is no longer than the records of both tables together |
| `Versioning.LastWantedMeaning` | src/elf/linking/elf32_symbol_versioning.cpp:245-251 | the last wanted candidate is on the list, is wanted, and no later one is; there is none exactly when nothing is wanted |
| `Versioning.RequirementMeaning` | src/elf/linking/elf32_symbol_versioning.cpp:120-359 | a requirement is returned if and only if the symbol has a version index, both tables can be walked and a record has the index; it is that of the last such VERDEF record, without one that of the last such VERNAUX record |
| `Versioning.RequirementAbsent` | src/elf/linking/elf32_symbol_versioning.cpp:120-157 | no requirement is returned exactly when the object has no version entries or the symbol's entry is local or global |
| `Versioning.VersymExact` | src/elf/linking/elf32_symbol_versioning.cpp:76-91 | the version entry of a symbol is the two bytes at the table plus twice its index |
| `Versioning.MatchMeaning` | src/elf/linking/elf32_symbol_versioning.cpp:361-481 | exactly when a candidate matches or not: without a requirement if its entry is not hidden; with one and no definitions if its index is 1; with definitions, given a VERDEF table in order and within the budget, if its index is that of the last definition of that hash and name, or 1 without one |
| `SymbolLookup.ComputeGnuHash` | src/elf/linking/elf32_symbol_lookup.cpp:160-166 | the accumulator loop computes the GNU hash |
| `SymbolLookup.ComputeSysvHash` | src/elf/linking/elf32_symbol_lookup.cpp:147-158 | the accumulator loop computes the SysV hash |
| `HashValues.GnuClosedForm` | src/elf/linking/elf32_symbol_lookup.cpp:160-166 | the GNU hash is 5381 times 33 to the length plus the bytes weighted by powers of 33, modulo 2^32 |
| `HashValues.GnuExit` | src/elf/linking/elf32_symbol_lookup.cpp:160-166 | the published GNU hash of "exit" |
| `HashValues.GnuSyscall` | src/elf/linking/elf32_symbol_lookup.cpp:160-166 | the published GNU hash of "syscall" |
| `HashValues.SysvBounded` | src/elf/linking/elf32_symbol_lookup.cpp:147-158 | the SysV hash has 28 bits |
| `HashValues.SysvExit` | src/elf/linking/elf32_symbol_lookup.cpp:147-158 | the published SysV hash of "exit" |
| `HashValues.SysvSyscall` | src/elf/linking/elf32_symbol_lookup.cpp:147-158 | the published SysV hash of "syscall", which folds its top nibble |
| `SymbolLookup.WalkGnuChain` | src/elf/linking/elf32_symbol_lookup.cpp:670-691 | the chain loop computes the GNU walk function |
| `SymbolLookup.WalkSysvChain` | src/elf/linking/elf32_symbol_lookup.cpp:704-726 | the bounded chain loop computes the SysV walk function |
| `SymbolIndexes.BuildIndex` | src/elf/linking/elf32_symbol_lookup.cpp:196-483 | the table loops compute the index function, error by error |
| `SymbolIndexes.IndexSound` | src/elf/linking/elf32_symbol_lookup.cpp:196-483 | a built index is good: readable tables, buckets and chains below the symbol count, and every GNU chain terminates below it, also when only the largest bucket was walked |
| `IndexMeaning.SysvExact` | src/elf/linking/elf32_symbol_lookup.cpp:223-300 | a SysV part is built if and only if its counts, bucket and chain addresses are those of the table's words, within the limits, readable, and every index is below the count |
| `IndexMeaning.GnuExact` | src/elf/linking/elf32_symbol_lookup.cpp:302-466 | the same for the GNU part; the symbol count is the known one, or one past the first terminator on the chain of the largest bucket, or the symbol offset when all buckets are empty |
| `IndexMeaning.IndexExact` | src/elf/linking/elf32_symbol_lookup.cpp:196-483 | the index that is built is exactly the one the tables describe |
| `HashTheorems.GnuLookupSafe` | src/elf/linking/elf32_symbol_lookup.cpp:346-451 | with a good GNU index, whatever the name, no GNU lookup over the same memory reports a broken chain or an index out of range |
| `HashTheorems.SysvChainVerdict` | src/elf/linking/elf32_symbol_lookup.cpp:694-726 | with nothing decisive on the chain, the hop limit reports InvalidHashChain exactly when the chain revisits an index |
| `HashTheorems.SysvChainDecided` | src/elf/linking/elf32_symbol_lookup.cpp:694-726 | with something decisive on the chain, the walk returns the verdict of the first such symbol, even when the chain goes round |
| `HashTheorems.BuiltLookupSafe` | src/elf/linking/elf32_symbol_lookup.cpp:509-727 | the lookup entry point over the index built from the same memory never reports an index out of range, and a broken chain if and only if there is no GNU table, nothing on the SysV chain decides and that chain revisits a symbol |
| `HashTheorems.GnuLookupIsScan` | src/elf/linking/elf32_symbol_lookup.cpp:533-691 | on a well-formed table with readable names, GNU lookup gives exactly the verdict of a linear scan from the symbol offset; the masked bloom index is the hash modulo the number of bloom words |
| `HashTheorems.BloomExact` | src/elf/linking/elf32_symbol_lookup.cpp:645-655 | the filter tests exactly the bits numbered by the hash and by the shifted hash |
| `SymbolMeaning.LookupSound` | src/elf/linking/elf32_symbol_lookup.cpp:509-727 | whatever the tables, an answer is a symbol whose sixteen bytes name the string asked for, GLOBAL or WEAK, defined, of default or protected visibility and supported form, with a matching version, and the guest value is st_value, plus the load bias unless the section is ABS |
| `SymbolMeaning.GnuLookupExact` | src/elf/linking/elf32_symbol_lookup.cpp:634-691 | on a well-formed GNU table the answer is exactly the first such symbol from the symbol offset on, everything before it passed over; not found exactly if everything is passed over |
| `SymbolMeaning.SysvLookupExact` | src/elf/linking/elf32_symbol_lookup.cpp:693-726 | on any accepted SysV table the answer is exactly the first such symbol on the chain of the name's bucket, everything before it passed over |
| `HashTheorems.TablesAgree` | src/elf/linking/elf32_symbol_lookup.cpp:533-726 | when at most one symbol is decisive and it is filed in a well-formed GNU table, both tables give the same verdict if and only if the SysV table answers for the name: that symbol is on the name's chain, and without one the chain ends |
| `ScopeSearch.LookupInScope` | src/elf/linking/elf32_symbol_lookup.cpp:740-876 | the loop with the deque and the two mark arrays computes the scope search function |
| `ScopeSearch.ClosureIsBreadthFirst` | src/elf/linking/elf32_symbol_lookup.cpp:842-875 | marking at pop and queueing repeatedly visits the graph in standard breadth-first order |
| `ScopeSearch.ScopeLookupIsFold` | src/elf/linking/elf32_symbol_lookup.cpp:749-876 | on a valid graph the search is object lookup folded over the deduplicated list of requester if symbolic, global scope and breadth-first order, cut at the limit |
| `ScopeSearch.BudgetMonotone` | src/elf/linking/elf32_symbol_lookup.cpp:749-876 | raising max_scope_objects changes no result of the search other than the report that it is used up; a success stays |
| `ScopeSearch.ScopeOrderMeaning` | src/elf/linking/elf32_symbol_lookup.cpp:749-876 | that list holds the global scope and everything the requester reaches, each object once |
| `ScopeMeaning.SearchMeaning` | src/elf/linking/elf32_symbol_lookup.cpp:749-876 | on a valid graph the search gives exactly the verdict of the first object of that list that is not silent, within the budget; otherwise not found, or the budget report |
| `ScopeMeaning.ReferenceMeaning` | src/elf/linking/elf32_symbol_lookup.cpp:889-920 | a reference lookup gives exactly that verdict for the requester's own version requirement, symbolic flag and the given global scope; a requirement that cannot be had is its error |
| `Relocations.BuildPlan` | src/elf/linking/elf32_relocation.cpp:141-248 | the decoding loop with its target set computes the plan function, error by error |
| `RelocationMeaning.PlanEntryExact` | src/elf/linking/elf32_relocation.cpp:176-233 | an entry is planned exactly as its eight bytes say: place is bias plus r_offset, type the low byte of r_info, symbol the rest, the aligned word captured |
| `RelocationMeaning.PlanExact` | src/elf/linking/elf32_relocation.cpp:141-248 | a table is planned if and only if it is whole, within the limit and every entry can be, at pairwise distinct places; the plan is its entries in order |
| `Relocations.ResolveReferences` | src/elf/linking/elf32_relocation.cpp:250-422 | the reference loop computes the resolution function, whose meaning entry by entry is ResolveEntryExact |
| `RelocationMeaning.ResolveEntryExact` | src/elf/linking/elf32_relocation.cpp:250-422 | on a valid graph an entry is resolved exactly to the reference of its symbol's bytes: supported form, non-empty name, bound to the definition the scope gives at its guest value; value 0 only for a weak reference no object answers |
| `Relocations.Prepare` | src/elf/linking/elf32_relocation.cpp:465-578 | the formula loop computes the prepared writes, whose words are FinalWordExact |
| `RelocationMeaning.FinalWordExact` | src/elf/linking/elf32_relocation.cpp:493-557 | RELATIVE stores bias plus addend modulo 2^32 and has no symbol; GLOB_DAT and JUMP_SLOT the symbol value; ABS32 symbol value plus addend; REL32 the word of AAELF32; nothing else is stored |
| `Relocations.PrepareCombined` | src/elf/linking/elf32_relocation.cpp:669-706 | both tables and the target set across them compute the combined writes |
| `RelocationTheorems.PreparedMeaning` | src/elf/linking/elf32_relocation.cpp:465-578 | a prepared table is exactly one write per effective entry, in table order, computed from the given view alone, at aligned, distinct, readable words with the original captured |
| `RelocationTheorems.CombinedMeaning` | src/elf/linking/elf32_relocation.cpp:669-706 | the combined writes are those of the main table followed by those of the PLT table, all at pairwise distinct words |
| `RelocationTheorems.WordsDisjoint` | src/elf/linking/elf32_relocation.cpp:213-233 | aligned distinct targets share no byte |
| `RelocationTheorems.Rel32FollowsAbi` | src/elf/linking/elf32_relocation.cpp:533-557 | REL32 stores the word of the AAELF32 relocation code; adding the place back gives the target with its Thumb bit |
| `RelocationTheorems.Abs32FollowsAbi` | src/elf/linking/elf32_relocation.cpp:524-532 | ABS32 stores the word of the AAELF32 code if and only if the target is not Thumb or symbol value plus addend is odd |
| `RelocationExample.TableDiffersFromAbi` | src/elf/linking/elf32_relocation.cpp:465-578 | a concrete object as table bytes (hash, symbols, names, REL entries, target words) whose prepared ABS32 and GLOB_DAT words are computed and differ from the words of AAELF32 |
| `RelocationTheorems.SlotsFollowAbi` | src/elf/linking/elf32_relocation.cpp:514-523 | GLOB_DAT and JUMP_SLOT store the word of the AAELF32 code if and only if the word in place adds nothing |
| `RelocationApply.WordMemory.RestoreWord` | src/elf/linking/elf32_relocation.cpp:100-106 | a reported restore is a restored word; only the four bytes can change |
| `RelocationApply.Undo` | src/elf/linking/elf32_relocation.cpp:590-616 | reverse verified restore: no culprit means the memory is as before; otherwise only target words differ |
| `RelocationApply.ApplyPending` | src/elf/linking/elf32_relocation.cpp:580-634 | for any faults: success overrides exactly the targets, TargetWriteFailed leaves memory unchanged, RollbackFailed changes target words only |
| `RelocationApply.ApplyCombined` | src/elf/linking/elf32_relocation.cpp:669-706 | the transaction: the words are a function of the pre-state alone, every error but RollbackFailed leaves the memory identical, and success is certain without faults; after success every REL entry of both tables, decoded from the old memory, has its word at bias plus r_offset, stated by type, old word, place and the binding of its symbol |
| `RelocationMeaning.CombinedStored` | src/elf/linking/elf32_relocation.cpp:669-706 | the combined writes store, for every entry of both tables, the word its bytes ask for |
| `RelocationApply.OverriddenUnique` | src/elf/linking/elf32_relocation.cpp:580-634 | the memory after success is determined by the pre-state and the writes |
| `RelocationApply.MappedWordWrite` | src/memory/guest_memory.cpp:223-231 | a write to the mapped memory is a four-byte patch of the readers' view |
| `DependencyResolver.ResolveDependencies` | src/elf/linking/elf32_dependency_resolver.cpp:113-176 | the request loop computes the resolution, makes at most one provider call per name, and its budget subtraction never underflows |
| `DependencyResolver.ResolutionMeaning` | src/elf/linking/elf32_dependency_resolver.cpp:113-176 | the dependencies are the needed names in order, each exactly the provider's answer to that call, non-empty and within what the per-image and the remaining total limit allow |
| `ObjectLoading.LoadObject` | src/elf/linking/elf32_dependency_loader.cpp:69-115 | success installs the image on top of the old memory, an executable at its own addresses and a dynamic image at the least suitable base of the window; every error has its cause, and failure changes nothing when the host releases pages |
| `ObjectLoading.PlacedImagesLoad` | src/elf/linking/elf32_dependency_loader.cpp:84-112 | without host failures a placed dynamic image can only fail on its entry point |
| `ObjectLoading.InspectObject` | src/elf/linking/elf32_dependency_loader.cpp:117-162 | dynamic entries, metadata and names of the object, error by error |
| `ObjectLoading.InspectAfterLoad` | src/elf/linking/elf32_dependency_loader.cpp:117-162 | right after a load the stages compose: only TruncatedEntry, Unterminated, metadata errors, UnterminatedString and StringTooLong remain |
| `ObjectMeaning.InspectedExact` | src/elf/linking/elf32_dependency_loader.cpp:117-162 | right after a load, inspection gives exactly the object its image says: entries from the PT_DYNAMIC words, metadata from their tags at the object's load bias, names from the string table; nothing without PT_DYNAMIC |
| `DependencyLoader.RollbackLoads` | src/elf/linking/elf32_dependency_loader.cpp:34-67 | all mappings of the call are undone; RollbackFailed only if the host refuses |
| `DependencyLoader.CheckRoot` | src/elf/linking/elf32_dependency_loader.cpp:341-360 | the checks of the root, in order; they pass exactly for a named, non-empty image within both byte limits and a positive object limit |
| `DependencyLoader.GraphLoader.Prepare` | src/elf/linking/elf32_dependency_loader.cpp:190-259 | loads and inspects one object and acquires its dependencies: the new state is reached from the old one, keeps the invariant, the page ownership, genuine objects and all budgets, and the returned dependencies are the logged answers to this object's needed names; a failure returns the very context and memory it stopped in, a state reached from the old one, and the cause holds of that state |
| `DependencyLoader.GraphLoader.FollowKnown` | src/elf/linking/elf32_dependency_loader.cpp:261-294 | a known identity with the same image gets the next edge, and is processed; a different image is an error, and the mismatch is in the log and graph of the state reached |
| `DependencyLoader.GraphLoader.FollowOne` | src/elf/linking/elf32_dependency_loader.cpp:261-327 | exactly one edge is added, to the object with the identity and image the provider gave for that name, known or new |
| `DependencyLoader.GraphLoader.Process` | src/elf/linking/elf32_dependency_loader.cpp:176-331 | the recursion keeps unique identities, edges equal to DT_NEEDED in order and to the logged answers, reachability from the root, genuine objects, ownership and budgets; only waiting objects are touched; it terminates by depth; a failure returns the context and memory it stopped in, reached from the starting context, with the cause holding there (a loading path one longer than the limit, an identity handed over with two images, an image that cannot be loaded in that memory, the next requests of the busy object failing, ...) |
| `LoadAccounts.GenuineNow` | src/elf/linking/elf32_dependency_loader.cpp:190-204 | an object just loaded and inspected is genuine: its pages hold exactly its image and its entries, metadata and names are those read from there |
| `GraphMeaning.GenuineMeaning` | src/elf/linking/elf32_dependency_loader.cpp:69-162 | a genuine object is what its image says in the memory as it is now: pages, load record, entries, metadata and names |
| `LoadAccounts.AllGenuineKept` | src/elf/linking/elf32_dependency_loader.cpp:176-331 | later loads never change what the pages of an earlier object hold |
| `LoadAccounts.StuckInspection` | src/elf/linking/elf32_dependency_loader.cpp:117-162 | a load stuck on reading an object it mapped can report only TruncatedEntry, Unterminated, UnterminatedString or StringTooLong, or a metadata error |
| `LoadContexts.AttachedKeeps` | src/elf/linking/elf32_dependency_loader.cpp:305-318 | adding an object with its edge keeps every invariant and accounts for its bytes |
| `LoadContexts.LinkedKeeps` | src/elf/linking/elf32_dependency_loader.cpp:276-280 | adding an edge to a known object keeps every invariant |
| `LoadContexts.CountedKeeps` | src/elf/linking/elf32_dependency_loader.cpp:206-259 | logging the answers to one object's needed names keeps every invariant: names asked, answers, byte total and occurrence count stay those of the log |
| `DependencyLoader.LoadDependencyGraph` | src/elf/linking/elf32_dependency_loader.cpp:336-386 | a transaction: a failure comes with the context reached from the root alone, its memory and the cause that holds there, restores the memory and is never RollbackFailed when the host releases pages; success maps exactly the old pages plus pairwise disjoint new ranges, each holding its image in the final memory, and gives a complete, rooted graph whose edges are the provider's answers; exactly one call per needed name, and all acquired bytes, repeated identities included, are within the limits; every object, its metadata and its pages in the final memory are those its image says |
| `LinkMaps.Preflight` | src/elf/linking/elf32_dependency_loader.cpp:419-480 | accepts exactly the valid maps |
| `LinkMaps.RecordRoot` | src/elf/linking/elf32_dependency_loader.cpp:482-496 | roots stay distinct and in place; a policy is only promoted |
| `LinkMaps.RecordGlobals` | src/elf/linking/elf32_dependency_loader.cpp:498-578 | the scope stays strictly increasing and exactly the DF_1_GLOBAL objects and global roots; the old scope stays a prefix of it, as insertion order promises, if and only if no earlier known object is promoted |
| `LinkMaps.ScopeOrder` | src/elf/linking/elf32_dependency_loader.cpp:498-578 | the condition on the input for that: the root is a known object outside the scope, promoted to Global, with a later object already in the scope |
| `LinkMaps.PromotionReorders` | src/elf/elf32_dependency_loader.h:95-107 | A Local, B Global, then A Global on a concrete valid map: the scope [1] becomes [0, 1] where insertion order has [1, 0] |
| `LinkMaps.Append` | src/elf/linking/elf32_dependency_loader.cpp:388-581 | a transaction over map and memory: any failure leaves the map as it was; InvalidLinkMap exactly for invalid maps; a known identity is reused exactly if its image is the same; a failing load comes with the context and memory it stopped in, reached from the map's graph with the root, and its cause there; success gives a complete load on top of the old graph, each range holding its image and each new object as its image says; a valid map stays valid, objects only appended, policies only promoted, and the scope order kept unless the append reorders it |
| `LinkMaps.AppendAll` | src/elf/linking/elf32_dependency_loader.cpp:388-581 | over every history of appends the map stays valid, InvalidLinkMap is never reported, and nothing recorded is lost |
| `InitPlans.DecodeFunctionArray` | src/elf/linking/elf32_lifecycle.cpp:22-65 | succeeds exactly on readable arrays within the limit and returns their words |
| `InitPlans.CallsOfMeaning` | src/elf/linking/elf32_lifecycle.cpp:151-163 | the calls of an array are exactly its entries that are not 0 or 0xffffffff, each once and in order |
| `InitPlans.ObjectCallsExact` | src/elf/linking/elf32_lifecycle.cpp:137-163 | the calls of a usable object are exactly the words of its DT_INIT_ARRAY other than 0 and 0xffffffff |
| `InitPlans.InitPlanner.Visit` | src/elf/linking/elf32_lifecycle.cpp:111-166 | the recursion keeps the order invariant and terminates on the unseen objects; a failure has a real cause |
| `InitPlans.PlanInitCalls` | src/elf/linking/elf32_lifecycle.cpp:171-198 | succeeds if and only if the reachable objects are usable and within both limits, and then returns the calls of a dependencies-first order of exactly those objects |
| `InitPlans.PlanMeaning` | src/elf/linking/elf32_lifecycle.cpp:111-198 | the calls are exactly the words of the reachable objects' DT_INIT_ARRAY other than 0 and 0xffffffff; if u depends on w and not the other way round, all calls of w precede all calls of u, cycles included |
| `InitPlans.ExcuseRefutes` | src/elf/linking/elf32_lifecycle.cpp:111-166 | every reported failure shows that no order within the limits exists |
| `Relros.CollectPages` | src/elf/hardening/elf32_relro.cpp:47-85 | the descriptor loop finds the first bad descriptor or collects exactly the page starts of the ranges |
| `Relros.RestorePages` | src/elf/hardening/elf32_relro.cpp:127-141 | reverse restore gives the memory back unless the host refuses a page |
| `Relros.Seal` | src/elf/hardening/elf32_relro.cpp:31-149 | success makes exactly the union of the rounded ranges read-only, changes no byte and reports the distinct page count; a failure other than RollbackFailed changes nothing |
| `Relros.SealExact` | src/elf/hardening/elf32_relro.cpp:47-125 | the checks pass if and only if there is nothing to seal, or the ranges are whole pages around non-empty segments within the page budget and every address in them is mapped, readable and not executable |
| `Relros.SealTwice` | src/elf/hardening/elf32_relro.cpp:92-147 | sealing is idempotent: a sealed memory passes again without a host call and stays the same |
| `Relros.SealAfterLoad` | src/elf/loading/elf32_load_plan.cpp:327-352 | after a load whose permissions are undisturbed, InvalidMetadata, UnmappedPage and UnreadablePage cannot occur |
| `Relros.PagesUnique` | src/elf/hardening/elf32_relro.cpp:87-90 | the sorted, duplicate-free page list, and so the reported count, is determined by the ranges |
| `ServiceDispatch.Execute` | src/cpu/dynarmic_cpu.cpp:205-219 | the bounded step loop computes the slice function from the state the request asks for |
| `ServiceDispatch.StartExact` | src/cpu/dynarmic_cpu.cpp:194-203 | the CPU starts with the request's registers, the entry address as program counter and the given CPSR, by default user mode with the T bit exactly for Thumb |
| `ServiceDispatch.SliceIsStretch` | src/runtime/a32_service_dispatch.cpp:35-112 | a slice followed by the dispatcher's decision is a stretch of the single-step loop |
| `ServiceDispatch.ExecuteWithServices` | src/runtime/a32_service_dispatch.cpp:22-113 | for any step function and handler, the same final state, counts and outcome as one loop under the total budget that handles each service inline; never more steps or services than allowed |
| `ServiceDispatch.BudgetsMonotone` | src/runtime/a32_service_dispatch.cpp:35-112 | larger budgets never change a run that did not end on a budget |

## Left out

- Extension registers, which every slice resets, and the JIT itself: the CPU is an arbitrary step function.
- The host mappings and their addresses, fastmem and allocation failure: the host is an oracle for the outcome of its calls.
- LinearGuestMemory: a simple flat backend; the abstract views and word memory cover it.
- The provider chain, the catalog provider and the platform provider: a provider is an arbitrary oracle here.
- The single-table relocation entry points: the same write phase over one prepared table.
- Running the planned constructors, the service registry, the log shim and all `to_string` functions: thin loops and tables.
- LinkMaps.Append: does not report which object made a map invalid, and root policies outside Local and Global cannot be expressed.
- Relros.Seal: does not model 64-bit wrap-around of mapping_start plus mapping_size for descriptors that no load produces.
- MappedMemory.MappedGuestMemory.ValidAccess: does not model buffers of 2^64 - 2^32 bytes or more, which no host object has. The same holds for ReadBytes and Write.
