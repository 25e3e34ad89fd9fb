# Xen hypervisor: a verified model of twelve sequential cores

This project models, in Dafny, the sequential logic of twelve source files of the
Xen hypervisor, and proves what each one promises. Each source file becomes one
module, or two where the file is large. State that the C code updates in place
(the e820 table, the vmap bitmap, the IRTE table, the per-CPU softirq masks, the
stub page) becomes a class with `array` or `seq` fields, with methods whose loops
carry their invariants. Each method is proved against a specification function,
and lemmas state the properties of those functions. Pure decisions become
functions and lemmas.

| module | file | what it covers |
|---|---|---|
| `Opt`, `Errno` (common.dfy) | | the Option type and the errno values the files return |
| `BitSet` (bitset.dfy) | | a machine word as the set of its set bits; ffsl as `Lowest`, ordered enumeration |
| `E820`, `E820Sanitize` | xen/arch/x86/e820.c | the BIOS memory map: coverage query, append, sanitise (change points, bubble sort, sweep), copy, max PFN, clip to a limit, add range, change range type, reserve |
| `Vmap` | xen/common/vmap.c | the vmap bitmap allocator: init, first-fit with alignment and guard bit, growing `vm_top`, index, size, free, `vmap_size`, `_xvrealloc`'s size logic |
| `CpuPolicy`, `CpuPolicyProps` | xen/arch/x86/lib/cpu-policy/copy-to-buffer.c, copy-from-buffer.c | CPUID leaf and MSR serialisation to and from the flat entry buffer, with the round trips and the error reporting |
| `Ffa`, `FfaMediator` | xen/arch/arm/tee/ffa.c | the FF-A mediator: version packing and negotiation, return codes, the retried direct request, RX/TX buffer state, partition info, subscriber lists, domain init and teardown signalling |
| `ArmDomain` | xen/arch/arm/domain.c | the resumable relinquish and teardown phase machines, domain-config validation, PSR classifiers, `arch_set_info_guest`, continuation arguments, event marking, `relinquish_memory` |
| `IntRemap`, `IntRemapMsi` | xen/drivers/passthrough/vtd/intremap.c | VT-d interrupt remapping: the free-run search, freeing, the IO-APIC pin map, the IO-APIC and MSI entry conversions, source-id qualifiers |
| `GuestXen` | xen/arch/x86/guest/xen/xen.c | running as a Xen guest: the event-channel upcall scan, masking, `map_vcpuinfo`, the vCPU clamp, the hypercall instruction, the CPUID leaf search |
| `Softirq` | xen/common/softirq.c | pending masks, lowest-first dispatch with an ignore mask, raising on one CPU or a mask, batching |
| `Gcov` | xen/common/coverage/gcc_4_7.c | the gcov info list, counter reset, and the .gcda serialiser |
| `Powernow` | xen/arch/x86/acpi/cpufreq/powernow.c | the AMD frequency fix-up, the frequency table, the transition latency, CPB, CPU init, target and exit |
| `Traps` | xen/arch/x86/x86_64/traps.c | the SYSCALL entry trampolines written into the stub page, and the control-register report of a PV vCPU |
| `Xenoprof` | xen/arch/x86/oprofile/xenoprof.c | the counter and IBS configuration hypercalls, and the sample-mode classifier |

Fixed-width integers are modelled as unbounded integers with the wrap written
out (`% TWO_32`, `% TWO_64`) where the source relies on it. Hardware reads
(MSRs, CPUID, the SPMC's answers, the hypervisor's hypercall results), allocation
outcomes and the answers of functions outside these files are parameters of the
members that use them.

## Model

| member | source | states |
|---|---|---|
| E820.E820Map.AllMapped | xen/arch/x86/e820.c:46-73 | on a well-formed table and a non-empty [start, end), the answer is 1 exactly when every address of the range lies in an entry of the asked type (0 = any type) |
| E820.E820Map.AddMemoryRegion | xen/arch/x86/e820.c:75-89 | appends the entry while the table has room and otherwise leaves it unchanged |
| E820.Append | xen/arch/x86/e820.c:75-89 | successive appends keep all new entries when they fit and exactly the prefix that fits otherwise |
| E820.AppendConcat | xen/arch/x86/e820.c:75-89 | appending two batches one after the other is appending their concatenation |
| E820Sanitize.WrapTest | xen/arch/x86/e820.c:189-193 | the 64-bit test `start > end` fires exactly for entries whose addr + size overflows 64 bits |
| E820Sanitize.ChangePointsOf | xen/arch/x86/e820.c:202-212 | at most two change points per entry |
| E820Sanitize.ChangePointsValid | xen/arch/x86/e820.c:202-212 | every recorded point is the start or the end of a non-empty entry |
| E820Sanitize.ChangePointsDistinct | xen/arch/x86/e820.c:202-212 | no change point is recorded twice |
| E820Sanitize.ChangePointsComplete | xen/arch/x86/e820.c:202-212 | both change points of every non-empty entry are recorded; zero-size entries contribute none |
| E820Sanitize.BuildChangePoints | xen/arch/x86/e820.c:202-212 | the recording loop fills the change-point array with exactly those points |
| E820Sanitize.OutOfOrder | xen/arch/x86/e820.c:217-220 | the swap test holds exactly when the later point's key (address, then start-before-end) is smaller |
| E820Sanitize.BubblePass | xen/arch/x86/e820.c:216-230 | one pass is a permutation, moves the largest key into place, reports a swap only for unsorted input and no swap only for sorted output |
| E820Sanitize.SortChangePoints | xen/arch/x86/e820.c:214-231 | the change points end sorted by address with start points first at equal addresses, and are a permutation of the input |
| E820Sanitize.MaxKind | xen/arch/x86/e820.c:256-260 | the current type is the largest type on the overlap list, 0 when it is empty |
| E820Sanitize.CurrentType | xen/arch/x86/e820.c:256-260 | the maximum loop computes that largest type |
| E820Sanitize.RemoveFromOverlap | xen/arch/x86/e820.c:244-251 | removing an end point's entry from the overlap list removes exactly that entry |
| E820Sanitize.UpdateOverlap | xen/arch/x86/e820.c:241-252 | a start point adds its entry to the overlap list, an end point removes it |
| E820Sanitize.SubU64 | xen/arch/x86/e820.c:265 | the size of a closed entry is the unsigned 64-bit difference, exact when it does not underflow |
| E820Sanitize.TypeAtIsMax | xen/arch/x86/e820.c:239-281 | the type the output gives an address is the largest type of the input entries holding it |
| E820Sanitize.GapType | xen/arch/x86/e820.c:256-260 | between two change points the overlap list's maximum is the type of every address there |
| E820Sanitize.EmitInto | xen/arch/x86/e820.c:262-281 | a type change closes the open output entry (dropped when empty), opens one of the new type, and sets the full flag when the output is full |
| E820Sanitize.SweepStep | xen/arch/x86/e820.c:239-281 | one iteration of the sweep agrees with the sweep specification on one more change point |
| E820Sanitize.SweepChangePoints | xen/arch/x86/e820.c:233-283 | the sweep loop produces the specified output, running through all points or stopping when new_bios is full |
| E820Sanitize.RunInvariant | xen/arch/x86/e820.c:233-283 | after any number of change points the output so far is sorted, non-overlapping, has no empty entries, and gives each address the maximal input type |
| E820Sanitize.OverlapsFit | xen/arch/x86/e820.c:241-252 | for a sorted input the overlap list always has room for a start point and holds the entry of an end point |
| E820Sanitize.SweepCorrect | xen/arch/x86/e820.c:233-283 | the output is ordered and non-overlapping, each range has the maximum type of the input entries covering it, zero-length ranges are dropped, and at most E820MAX entries are emitted |
| E820Sanitize.CopyEntries | xen/arch/x86/e820.c:284 | the first n output entries are copied over biosmap and the rest is untouched |
| E820Sanitize.SanitizeChecked | xen/arch/x86/e820.c:195-287 | after the checks the map is rewritten into a sorted, non-overlapping map that is sound for every address and, when not truncated, complete |
| E820Sanitize.SanitizeE820Map | xen/arch/x86/e820.c:139-288 | returns -1 and leaves the map untouched exactly when there are fewer than 2 entries or an entry wraps; otherwise returns 0 with the sanitised map |
| E820.LegacyFixup | xen/arch/x86/e820.c:320-334 | on bare metal a RAM entry loses exactly its part inside the 640K-1M hole; every added piece lies inside the firmware entry and keeps its type |
| E820.FirstWrap | xen/arch/x86/e820.c:318-320 | the first firmware entry whose end overflows 64 bits, all earlier ones fit |
| E820.E820Map.AddFixedUp | xen/arch/x86/e820.c:320-334 | one loop round appends the fixed-up pieces of the firmware entry |
| E820.E820Map.CopyEntry | xen/arch/x86/e820.c:312-337 | after round i the table holds the additions of the first i + 1 firmware entries |
| E820.E820Map.CopyE820Map | xen/arch/x86/e820.c:306-339 | fewer than two entries: -1 and no change; otherwise the entries before the first wrapping one are added, and -1 is returned exactly when one wraps |
| E820.E820Map.FindMaxPfn | xen/arch/x86/e820.c:345-364 | the result is the largest end page of a RAM entry holding a whole page, or 0 when there is none |
| E820.FindContaining | xen/arch/x86/e820.c:592-599 | the first entry holding all of [s, e), or the table size when none does |
| E820.E820Map.FindContainingIndex | xen/arch/x86/e820.c:592-599 | the search loop finds that entry |
| E820.SplitPiecesFacts | xen/arch/x86/e820.c:604-645 | the 1, 2 or 3 pieces an entry splits into are well-formed, lie inside it, give [s, e) the new type and keep the old type elsewhere |
| E820.E820Map.SplitEntry | xen/arch/x86/e820.c:604-645 | the entry is replaced by its pieces when the table has room, otherwise the table is unchanged |
| E820.E820Map.PutTwo | xen/arch/x86/e820.c:611-627 | the entry is replaced by the two pieces and the rest of the table shifts up by one |
| E820.E820Map.PutThree | xen/arch/x86/e820.c:628-646 | the entry is replaced by the three pieces and the rest of the table shifts up by two |
| E820.MergeFrom | xen/arch/x86/e820.c:650-660 | merging never lengthens the table |
| E820.MergeFromLeavesNoMergeable | xen/arch/x86/e820.c:650-660 | after the merge pass no two neighbours of the same type touch |
| E820.MergeFromPreserves | xen/arch/x86/e820.c:650-660 | merging keeps the table well-formed and gives every address the type it had |
| E820.E820Map.MergeAdjacent | xen/arch/x86/e820.c:650-660 | the merge loop computes the merge pass |
| E820.E820Map.MergeAt | xen/arch/x86/e820.c:655-658 | one entry absorbs its neighbour and the rest closes up |
| E820.ChangeRangeTypeRetypes | xen/arch/x86/e820.c:585-668 | a successful change gives [s, e) the new type, keeps every other address, keeps the table well-formed and merged, and returns 1 |
| E820.ChangeRangeTypeSucceeds | xen/arch/x86/e820.c:585-668 | an entry of the original type holding [s, e) and room for two more entries is enough for success |
| E820.E820Map.ChangeRangeType | xen/arch/x86/e820.c:585-668 | returns 0 and changes nothing if no entry holds [s, e), if its type is not the original type or if the split does not fit; otherwise applies the change and returns 1 |
| E820.E820Map.ReserveE820Ram | xen/arch/x86/e820.c:671-674 | the RAM in [s, e) becomes reserved, as a type change from RAM |
| E820.AddRangeWalk | xen/arch/x86/e820.c:540-563 | the walk stops at an abutting entry of the same type, at an overlap, or at the first entry above the range, after entries that all end by s |
| E820.E820Map.AddRangeDecide | xen/arch/x86/e820.c:540-563 | the loop takes that decision |
| E820.AddRangeSpec | xen/arch/x86/e820.c:537-583 | failure only on overlap or a full table; success grows an abutting same-type entry or inserts a new entry at its sorted place |
| E820.AddRangeSound | xen/arch/x86/e820.c:537-583 | a successful add maps [s, e) with the new type, leaves every other address as it was and keeps the table well-formed |
| E820.AddExtendDown | xen/arch/x86/e820.c:547-551 | growing an entry down to s (the corrected case) maps [s, e) and keeps everything else |
| E820.AddExtendUp | xen/arch/x86/e820.c:553-558 | growing an entry up to e maps [s, e) and keeps everything else |
| E820.AddInsert | xen/arch/x86/e820.c:566-579 | inserting at the sorted place maps [s, e) and keeps everything else |
| E820.E820Map.InsertAt | xen/arch/x86/e820.c:566-579 | the memmove and the store insert the new entry before entry i |
| E820.E820Map.AddRange | xen/arch/x86/e820.c:537-583 | returns 1 and applies the corrected add when it succeeds, otherwise returns 0 and changes nothing |
| E820.AddRangeAsWrittenLosesRange | xen/arch/x86/e820.c:547-551 | the add as written moves the abutting entry down instead of growing it, so the entry's top part is no longer mapped |
| E820.E820Map.FindRamAbove | xen/arch/x86/e820.c:374-382 | finds a RAM entry reaching past the limit, or shows there is none |
| E820.E820Map.ClipEntry | xen/arch/x86/e820.c:384-407 | one round strictly reduces the RAM above the limit and changes nothing below it |
| E820.ClipRetypeWholeFits | xen/arch/x86/e820.c:392-407 | on a sorted, non-overlapping table, retyping a RAM entry that starts at or above the limit always succeeds, so the deletion branch is not reached there |
| E820.ClipByCut | xen/arch/x86/e820.c:398-401 | cutting an entry at the limit keeps everything below the limit and reduces the RAM above it |
| E820.E820Map.ClipToLimit | xen/arch/x86/e820.c:366-419 | afterwards no RAM entry ends above the limit, nothing below the limit changes, and above it RAM becomes unusable or unmapped |
| Vmap.NextSet | xen/common/vmap.c:82 | find_next_bit gives the first set bit at or after the start below the top, or the top |
| Vmap.NextClear | xen/common/vmap.c:94 | find_next_zero_bit gives the first clear bit at or after the start below the top, or the top |
| Vmap.NormaliseAlign | xen/common/vmap.c:65-68 | the alignment used is a non-zero power of two, the lowest set bit of a non-zero request |
| Vmap.NormalisePowerOfTwo | xen/common/vmap.c:65-68 | a power-of-two alignment is kept as it is |
| Vmap.NextAligned | xen/common/vmap.c:95 | the rounding gives the first multiple of the alignment strictly above the start |
| Vmap.VmRegion.InitType | xen/common/vmap.c:22-54 | vm_end, vm_low and vm_top are derived from the region size, and exactly the bitmap's own pages are marked used |
| Vmap.InitSizes | xen/common/vmap.c:30-33 | the sizes vm_init_type derives fit the bitmap and each other |
| Vmap.SearchStep | xen/common/vmap.c:82-98 | one round of the search skips no fitting start, finds the first aligned start where the run and its guard bit fit, or moves past the gap |
| Vmap.NoFitInGap | xen/common/vmap.c:86-97 | when the first aligned start in a clear gap does not fit, no later start in that gap does |
| Vmap.FitInGap | xen/common/vmap.c:86-97 | the first aligned start in a clear gap fits when the run and its trailing guard stay inside the gap |
| Vmap.VmRegion.Search | xen/common/vmap.c:80-99 | the search returns the first start above vm_low where nr pages fit with their guards, or vm_top |
| Vmap.VmRegion.SearchGrowing | xen/common/vmap.c:78-141 | while the search fails, one more bitmap page is mapped and vm_top grows up to vm_end; the search result is the first fit in the grown bitmap |
| Vmap.SetRun | xen/common/vmap.c:151-152 | the loop sets exactly the bits of the new run |
| Vmap.VmRegion.Commit | xen/common/vmap.c:150-159 | the found run is marked used and vm_low moves past it when it starts within two bits of vm_low |
| Vmap.VmRegion.Alloc | xen/common/vmap.c:60-162 | on success the address is the region base plus the first fitting start, aligned and inside the region, and the allocation is recorded; on failure no start fits in the bitmap vm_end allows |
| Vmap.AddRun | xen/common/vmap.c:150-159 | a new guarded run set where it fits keeps the allocations tiling the bitmap |
| Vmap.ShapeAlloc | xen/common/vmap.c:150-159 | the bitmap keeps its invariant shape after an allocation |
| Vmap.VmRegion.Index | xen/common/vmap.c:164-180 | a non-zero index is the first page of a live allocation |
| Vmap.VmRegion.IndexOfAlloc | xen/common/vmap.c:164-180 | every address in the first page of an allocation leads back to it |
| Vmap.VmRegion.Size | xen/common/vmap.c:182-192 | the size of an allocation's address is its page count, 0 for an address that starts none |
| Vmap.RunEnd | xen/common/vmap.c:189 | the run of set bits from an allocation's first page ends where the allocation does |
| Vmap.ClearRun | xen/common/vmap.c:218-220 | the clearing loop clears exactly the allocation's run |
| Vmap.LowerLow | xen/common/vmap.c:210-214 | vm_low is lowered to the bottom of the clear run just below the freed allocation |
| Vmap.VmRegion.FreeAt | xen/common/vmap.c:207-221 | the allocation's bits are cleared, it is forgotten, and vm_low moves down onto the clear run below it |
| Vmap.ShapeFree | xen/common/vmap.c:207-221 | the bitmap keeps its invariant shape after a free |
| Vmap.FreeUndoesAlloc | xen/common/vmap.c:150-159 | freeing a run that was just allocated gives back the bitmap as it was |
| Vmap.VmFree | xen/common/vmap.c:194-222 | the allocation an address starts is released from the region that holds it, the default region first: its run's bits are cleared, it is forgotten and vm_low drops to the bottom of the clear run below it when it lay below vm_low; the other region, and both regions for an address that starts nothing, keep their bits, allocations and vm_low; neither region's base, vm_top or vm_end changes |
| Vmap.VmapSize | xen/common/vmap.c:253-261 | the size is the page count of the allocation in either region, or 0 |
| Vmap.VmapSizeOfAlloc | xen/common/vmap.c:253-261 | the size of an address in the first page of a default-region allocation is that allocation's length |
| Vmap.XvRealloc | xen/common/vmap.c:388-428 | an unchanged page count keeps the block; otherwise a fresh block gets min(size, old pages) bytes or the tail of the old page, and the old block is freed; a failed shrink keeps the old block |
| Vmap.XvReallocKeeps | xen/common/vmap.c:412-425 | an unchanged page count or a failed shrink hands back the original block |
| CpuPolicy.SlotOf | xen/arch/x86/lib/cpu-policy/copy-from-buffer.c:76-143 | a (leaf, subleaf) pair that is accepted names a slot inside the policy's arrays |
| CpuPolicy.ApplyLeaf | xen/arch/x86/lib/cpu-policy/copy-from-buffer.c:76-143 | an entry is stored exactly when its leaf and subleaf name a slot, and then only that slot changes |
| CpuPolicy.ApplyLeaves | xen/arch/x86/lib/cpu-policy/copy-from-buffer.c:69-156 | the loop stops at the first rejected entry with -ERANGE and its leaf and subleaf, 0 with err_leaf and err_subleaf left at -1 otherwise; the MSR part is untouched |
| CpuPolicy.CpuidFromBuffer | xen/arch/x86/lib/cpu-policy/copy-from-buffer.c:43-157 | more entries than the policy can hold is -E2BIG before anything is read |
| CpuPolicy.PolicyState.StoreLeaf | xen/arch/x86/lib/cpu-policy/copy-from-buffer.c:76-143 | one pass of the switch stores the entry in its slot or reports out_of_range with the policy unchanged |
| CpuPolicy.PolicyState.CpuidCopyFromBuffer | xen/arch/x86/lib/cpu-policy/copy-from-buffer.c:43-157 | the in-place copy computes the specified result, and the policy is recalculated exactly on success |
| CpuPolicy.ApplyMsr | xen/arch/x86/lib/cpu-policy/copy-from-buffer.c:188-218 | nonzero flags are -EINVAL, an MSR the policy does not hold is -ERANGE, a value too wide for its field is -EOVERFLOW, and otherwise the value is stored |
| CpuPolicy.ApplyMsrs | xen/arch/x86/lib/cpu-policy/copy-from-buffer.c:183-227 | the loop stops at the first refused entry, names it in err_msr and leaves the CPUID part of the policy untouched |
| CpuPolicy.MsrFromBuffer | xen/arch/x86/lib/cpu-policy/copy-from-buffer.c:159-228 | more entries than allowed is -E2BIG before anything is read |
| CpuPolicy.PolicyState.StoreMsr | xen/arch/x86/lib/cpu-policy/copy-from-buffer.c:188-218 | one pass stores the entry or returns its error with the policy unchanged |
| CpuPolicy.PolicyState.MsrCopyFromBuffer | xen/arch/x86/lib/cpu-policy/copy-from-buffer.c:159-228 | the in-place copy computes the specified result |
| CpuPolicy.Emit | xen/arch/x86/lib/cpu-policy/copy-to-buffer.c:44-62 | writing entries one at a time writes them all when they fit, else fills the buffer with a prefix and returns -ENOBUFS |
| CpuPolicy.EmitAppend | xen/arch/x86/lib/cpu-policy/copy-to-buffer.c:44-62 | writing two batches is writing their concatenation, and a failure in the first ends it |
| CpuPolicy.PutLeaf | xen/arch/x86/lib/cpu-policy/copy-to-buffer.c:44-62 | copy_leaf_to_buffer writes one entry at the cursor or returns -ENOBUFS when the buffer is full |
| CpuPolicy.PutCache | xen/arch/x86/lib/cpu-policy/copy-to-buffer.c:85-93 | the leaf 0x4 loop writes the cache subleaves up to and including the first of type 0 |
| CpuPolicy.PutFeat | xen/arch/x86/lib/cpu-policy/copy-to-buffer.c:96-100 | the leaf 0x7 loop writes subleaves 0 to max_subleaf |
| CpuPolicy.PutTopo | xen/arch/x86/lib/cpu-policy/copy-to-buffer.c:102-110 | the leaf 0xb loop writes the topology subleaves up to and including the first of type 0 |
| CpuPolicy.PutXstate | xen/arch/x86/lib/cpu-policy/copy-to-buffer.c:119-122 | the leaf 0xd loop writes subleaf j from 2 while XCR0 or XSS has a bit at or above j |
| CpuPolicy.PutBasicLeaf | xen/arch/x86/lib/cpu-policy/copy-to-buffer.c:83-129 | the switch writes the entries of one basic leaf |
| CpuPolicy.PutBasic | xen/arch/x86/lib/cpu-policy/copy-to-buffer.c:80-130 | the loop writes the entries of all basic leaves up to the limit |
| CpuPolicy.PutTail | xen/arch/x86/lib/cpu-policy/copy-to-buffer.c:131-141 | the hypervisor leaves and the extended leaves up to their limit are written |
| CpuPolicy.CpuidCopyToBuffer | xen/arch/x86/lib/cpu-policy/copy-to-buffer.c:64-148 | on success the buffer holds the whole serialisation and nr_entries is its length; otherwise -ENOBUFS with a full buffer holding its prefix |
| CpuPolicy.PutMsr | xen/arch/x86/lib/cpu-policy/copy-to-buffer.c:154-169 | copy_msr_to_buffer writes one entry with flags 0 or returns -ENOBUFS when the buffer is full |
| CpuPolicy.MsrCopyToBuffer | xen/arch/x86/lib/cpu-policy/copy-to-buffer.c:171-194 | on success the buffer holds MSR_INTEL_PLATFORM_INFO and MSR_ARCH_CAPABILITIES; otherwise -ENOBUFS with the prefix that fits |
| CpuPolicyProps.CacheEntriesWellFormed | xen/arch/x86/lib/cpu-policy/copy-to-buffer.c:85-93 | the leaf 0x4 entries are in subleaf order and each names its cache slot |
| CpuPolicyProps.TopoEntriesWellFormed | xen/arch/x86/lib/cpu-policy/copy-to-buffer.c:102-110 | the leaf 0xb entries are in subleaf order and each names its topology slot |
| CpuPolicyProps.FeatEntriesWellFormed | xen/arch/x86/lib/cpu-policy/copy-to-buffer.c:96-100 | the leaf 0x7 entries are in subleaf order and each names its feature slot |
| CpuPolicyProps.XstateEntriesWellFormed | xen/arch/x86/lib/cpu-policy/copy-to-buffer.c:119-122 | the leaf 0xd entries from subleaf 2 are in order and each names its xstate slot |
| CpuPolicyProps.XstateEntriesExact | xen/arch/x86/lib/cpu-policy/copy-to-buffer.c:119-122 | subleaf k + d is emitted exactly when it is in range and XCR0 or XSS still has a bit at or above d |
| CpuPolicyProps.XstateSubleaves | xen/arch/x86/lib/cpu-policy/copy-to-buffer.c:111-122 | leaf 0xd always carries subleaves 0 and 1, and subleaf j >= 2 exactly when the array has it and XCR0 or XSS has a bit at or above j |
| CpuPolicyProps.LeafEntriesWellFormed | xen/arch/x86/lib/cpu-policy/copy-to-buffer.c:83-129 | the entries of one basic leaf all carry that leaf, in order, each naming its slot |
| CpuPolicyProps.BasicEntriesWellFormed | xen/arch/x86/lib/cpu-policy/copy-to-buffer.c:80-130 | the basic leaves are emitted in order, within the range, each leaf without subleaves exactly once |
| CpuPolicyProps.ExtdEntriesWellFormed | xen/arch/x86/lib/cpu-policy/copy-to-buffer.c:138-141 | the extended leaves are emitted in order, each with its value |
| CpuPolicyProps.CpuidEntriesWellFormed | xen/arch/x86/lib/cpu-policy/copy-to-buffer.c:64-148 | the serialisation lists each (leaf, subleaf) at most once, in increasing order, every entry naming a policy slot with its value, and includes every leaf up to the limits |
| CpuPolicyProps.SlotOfInjective | xen/arch/x86/lib/cpu-policy/copy-from-buffer.c:76-143 | two (leaf, subleaf) pairs that name the same slot are the same pair |
| CpuPolicyProps.ApplyIncreasing | xen/arch/x86/lib/cpu-policy/copy-from-buffer.c:69-156 | entries that are in order and all name slots are all stored, and every other slot keeps its value |
| CpuPolicyProps.CpuidRoundTrip | xen/arch/x86/lib/cpu-policy/copy-from-buffer.c:43-157 | copying a policy's serialisation into any policy succeeds within the entry limit and gives every named slot the serialised value |
| CpuPolicyProps.CpuidRoundTripSame | xen/arch/x86/lib/cpu-policy/copy-from-buffer.c:43-157 | copying a policy's own serialisation back into it changes nothing |
| CpuPolicyProps.CpuidRangeError | xen/arch/x86/lib/cpu-policy/copy-from-buffer.c:69-156 | a buffer is copied in completely exactly when every entry names a slot; otherwise the first failing entry is reported and the earlier ones are kept |
| CpuPolicyProps.MsrRoundTrip | xen/arch/x86/lib/cpu-policy/copy-from-buffer.c:159-228 | the two serialised MSR entries copied into any policy succeed and set exactly those two MSRs |
| CpuPolicyProps.MsrError | xen/arch/x86/lib/cpu-policy/copy-from-buffer.c:183-227 | a failed MSR copy names the first refused entry, returns its error and keeps what earlier entries stored |
| Ffa.ToInt32 | xen/arch/arm/tee/ffa.c:375-390 | narrowing a 64-bit register to int32_t keeps its low 32 bits as a signed value |
| Ffa.MakeVersion | xen/arch/arm/tee/ffa.c:46-52 | a packed version fits in 31 bits |
| Ffa.VersionRoundTrip | xen/arch/arm/tee/ffa.c:46-52 | packing a major and minor in range and extracting them gives them back |
| Ffa.VersionOrder | xen/arch/arm/tee/ffa.c:46-52 | packed versions compare as (major, minor) pairs |
| Ffa.ProbeVersion | xen/arch/arm/tee/ffa.c:355-373 | the SPMC's version is accepted exactly when it answered and its low 32 bits are version 1.1 |
| Ffa.NegotiateVersion | xen/arch/arm/tee/ffa.c:543-556 | a guest is given version 1.0 or 1.1 |
| Ffa.NegotiateNewestSupported | xen/arch/arm/tee/ffa.c:543-556 | the version given is the newest supported one not above the request, and at least 1.0 |
| Ffa.FfaCtx.HandleVersion | xen/arch/arm/tee/ffa.c:543-556 | the negotiated version of the 32-bit request is returned and recorded, and nothing else changes |
| Ffa.RetCode | xen/arch/arm/tee/ffa.c:375-390 | FFA_ERROR gives its int32_t code from w2, zero becoming NOT_SUPPORTED; a success function ID gives OK; anything else NOT_SUPPORTED |
| Ffa.RetCodeOfError | xen/arch/arm/tee/ffa.c:375-390 | a negative 32-bit error code in w2 comes back unchanged whether zero- or sign-extended |
| Ffa.DirectReqFrom | xen/arch/arm/tee/ffa.c:474-507 | the retry loop makes at least one and at most the allowed number of calls |
| Ffa.DirectReqFromSpec | xen/arch/arm/tee/ffa.c:474-507 | every call but the last got a well-formed retry answer; the last got a malformed answer (INVALID_PARAMETERS), a final answer, or used up the retries |
| Ffa.DirectReqSpec | xen/arch/arm/tee/ffa.c:460-510 | the framework message is sent at least once and at most the allowed number of times, with the result the last answer decides |
| Ffa.DirectReqSendVm | xen/arch/arm/tee/ffa.c:460-510 | the loop computes that result and call count |
| Ffa.VmId | xen/arch/arm/tee/ffa.c:512-516 | the VM ID is the domain ID plus one in uint16_t |
| Ffa.VmIdNoOverflow | xen/arch/arm/tee/ffa.c:512-516 | below the last domain ID the VM ID is never the hypervisor's 0 and never shared; the last domain ID would wrap to 0 |
| Ffa.RxtxMap | xen/arch/arm/tee/ffa.c:558-631 | too many pages is NOT_SUPPORTED, an existing mapping DENIED, a failed lookup or map INVALID_PARAMETERS; success maps both buffers and never uses a missing page |
| Ffa.RxtxMapAsWritten | xen/arch/arm/tee/ffa.c:558-631 | as written, a missing RX page is used exactly when the TX page was found, the RX page was not and the other checks pass |
| Ffa.RxtxMapAsWrittenAgrees | xen/arch/arm/tee/ffa.c:558-631 | the code as written and the corrected check agree whenever the RX lookup finds a page |
| Ffa.RxtxMapNullRxPage | xen/arch/arm/tee/ffa.c:599-601 | a good TX page with no page behind the RX address: as written the mediator goes on with a NULL page, the corrected check rejects it |
| Ffa.RxtxMap32IgnoresUpper | xen/arch/arm/tee/ffa.c:570-579 | under the 32-bit calling convention the upper halves of the addresses make no difference |
| Ffa.FfaCtx.HandleRxtxMap | xen/arch/arm/tee/ffa.c:558-631 | the context takes the corrected map's result: on success both buffers and the page count, with the RX buffer free for the guest; on failure it is unchanged |
| Ffa.FfaCtx.RxtxUnmap | xen/arch/arm/tee/ffa.c:633-645 | both mappings are dropped and every buffer field reset |
| Ffa.FfaCtx.HandleRxtxUnmap | xen/arch/arm/tee/ffa.c:647-658 | INVALID_PARAMETERS with nothing changed when nothing is mapped, else OK after unmapping |
| Ffa.FfaCtx.HandleRxRelease | xen/arch/arm/tee/ffa.c:740-755 | OK exactly when pages are mapped and the buffer is not already the guest's, and then the buffer is given back; otherwise DENIED |
| Ffa.FfaCtx.HandlePartitionInfoGet | xen/arch/arm/tee/ffa.c:660-738 | a 1.1 count-only request is answered by the SPMC, with the count it reports in w2 on success; another nonzero flag is INVALID_PARAMETERS; otherwise the descriptors are copied into the RX buffer, in the guest's format, when it is free and large enough |
| Ffa.GuestView | xen/arch/arm/tee/ffa.c:697-727 | each descriptor keeps its ID and properties; 1.0 guests lose the UUID |
| FfaMediator.SubscribersMembers | xen/arch/arm/tee/ffa.c:985-1010 | an ID is listed exactly when a partition with that ID has the notification bit set |
| FfaMediator.IsInSubscrList | xen/arch/arm/tee/ffa.c:910-922 | the answer is whether sp occurs in subscr[start..end) |
| FfaMediator.CountSubscribers | xen/arch/arm/tee/ffa.c:985-992 | the counting pass counts the creation and destruction subscribers |
| FfaMediator.FillSubscribers | xen/arch/arm/tee/ffa.c:994-1010 | the filling pass lists them in partition order |
| FfaMediator.Mediator.InitSubscribers | xen/arch/arm/tee/ffa.c:975-1013 | on success the two lists hold exactly the subscribers; failure happens only when an allocation fails, and leaves them empty |
| FfaMediator.Mediator.InitSps | xen/arch/arm/tee/ffa.c:1015-1040 | the SPMC's error or an ID count that does not fit is refused; otherwise the subscriber lists are built from the partitions it reported; it succeeds exactly when the SPMC answered with a fitting count and either the lists could be allocated or there was nothing to allocate |
| FfaMediator.Mediator.DomainInit | xen/arch/arm/tee/ffa.c:872-908 | no SPMC is -ENODEV, the last domain ID -ERANGE, a failed allocation -ENOMEM; otherwise every creation subscriber is told in order until the first failure, which is -EIO |
| FfaMediator.TeardownTargetsMembers | xen/arch/arm/tee/ffa.c:925-960 | teardown tells a destruction subscriber exactly when it is not a creation subscriber that was never told |
| FfaMediator.TeardownUndoesInit | xen/arch/arm/tee/ffa.c:925-960 | every SP told of the creation that also subscribes to destruction is told of the destruction |
| FfaMediator.Mediator.DomainTeardown | xen/arch/arm/tee/ffa.c:925-960 | the targets told are those of the teardown rule, and the buffers are unmapped |
| ArmDomain.RunPhases | xen/arch/arm/domain.c:1053-1122 | the phases run in order from the recorded one; 0 is returned exactly when all of them up to done succeed |
| ArmDomain.RunPhasesSpec | xen/arch/arm/domain.c:1053-1122 | the phase recorded is the first that fails, its error is returned, and every phase before it succeeded |
| ArmDomain.RunPhasesResume | xen/arch/arm/domain.c:1053-1122 | resuming after a failure repeats the failed phase and then carries on as one uninterrupted run would |
| ArmDomain.ArmDomain.RelinquishResources | xen/arch/arm/domain.c:1053-1122 | domain_relinquish_resources enters the phase sequence at the recorded phase, falls through the rest and records where it stopped |
| ArmDomain.ArmDomain.ArchDomainTeardown | xen/arch/arm/domain.c:810-840 | arch_domain_teardown follows the same scheme with the tee phase |
| ArmDomain.SanitiseDomainConfig | xen/arch/arm/domain.c:611-703 | the configuration is refused with -EINVAL exactly when one of the checks fails; otherwise a native GIC version is replaced by the host's |
| ArmDomain.SanitiseIdempotent | xen/arch/arm/domain.c:611-703 | a sanitised configuration passes again unchanged |
| ArmDomain.PsrClassifiers | xen/arch/arm/domain.c:883-922 | an accepted AArch32 PSR has the mode bit set and is never Monitor or Hyp; an accepted AArch64 PSR has it clear and runs at EL0 or EL1; no PSR is both |
| ArmDomain.ArmVcpu.SetInfoGuest | xen/arch/arm/domain.c:932-974 | -EINVAL exactly for a context whose CPSR or a nonzero SPSR is not a valid guest PSR, with nothing changed; otherwise the context is loaded and the vCPU marked initialised and up or down as the flags say |
| ArmDomain.ArmVcpu.MarkEventsPending | xen/arch/arm/domain.c:1166-1174 | the upcall flag ends set, and the interrupt is injected exactly when it was clear |
| ArmDomain.ValidPrefix | xen/arch/arm/domain.c:363-374 | the longest prefix of the format made of accepted characters |
| ArmDomain.DecodeArgs | xen/arch/arm/domain.c:363-374 | each argument is stored as NEXT_ARG of its format character |
| ArmDomain.StoreArgs | xen/arch/arm/domain.c:392-447 | the argument loop stores each argument in turn and fails exactly on a bad format character or too many arguments |
| ArmDomain.ArmVcpu.CreateContinuation | xen/arch/arm/domain.c:376-462 | the arguments go into the multicall entry (at most six) or into x0-x4, the hypercall is marked preempted, and a bad format crashes the domain |
| ArmDomain.ReleasePages | xen/arch/arm/domain.c:992-1024 | the pages released all come from the list and could be referenced, and the result is 0 or -ERESTART |
| ArmDomain.ReleaseAll | xen/arch/arm/domain.c:992-1024 | without preemption every page whose reference can be taken is released, in list order, and no other |
| ArmDomain.RelinquishMemory | xen/arch/arm/domain.c:992-1024 | the loop releases the pages the specification says, and returns its result |
| IntRemap.RunLenFreeRun | xen/drivers/passthrough/vtd/intremap.c:244-261 | the run of free entries the loop counts in `found` is at least n long exactly when the n entries before the index are all free |
| IntRemap.ScanSpec | xen/drivers/passthrough/vtd/intremap.c:244-261 | from any starting point the search stops at the first index where a run of nr free entries ends, or runs off the end of the table when there is none |
| IntRemap.AllocEndSpec | xen/drivers/passthrough/vtd/intremap.c:234-269 | alloc_remap_entry is a first fit: no run of nr free entries ends below the index it returns, and a returned index inside the table ends such a run |
| IntRemap.AllocStartSpec | xen/drivers/passthrough/vtd/intremap.c:234-269 | the corrected allocation returns the first index of the first run of nr free entries, which is free throughout, or the table size when there is none |
| IntRemap.AllocOneStartIsEnd | xen/drivers/passthrough/vtd/intremap.c:336 | for a single entry, as the IO-APIC path asks, the last and the first index of the run coincide, so that path is not affected by the finding below |
| IntRemap.FreedSlotIsFound | xen/drivers/passthrough/vtd/intremap.c:210-228 | after an entry is freed a one-entry allocation returns it or an earlier free entry |
| IntRemap.AllocEndNotRunStart | xen/drivers/passthrough/vtd/intremap.c:234-269 | with entry 2 in use, asking for two entries returns index 1, and entries 1 and 2 are not both free, while the run 0..1 is |
| IntRemap.ScanTable | xen/drivers/passthrough/vtd/intremap.c:241-261 | the search loop over the table returns the first-fit end index without changing the table |
| IntRemap.FreeManyFrees | xen/drivers/passthrough/vtd/intremap.c:529-536 | freeing n entries from a first index leaves each of them inside the table free and every other entry as it was |
| IntRemap.IommuIntRemap.constructor | xen/drivers/passthrough/vtd/intremap.c:234-269 | a new remapping table has every entry free and a zero in-use count |
| IntRemap.IommuIntRemap.AllocRemapEntry | xen/drivers/passthrough/vtd/intremap.c:234-269 | alloc_remap_entry as written: it returns the last index of the first run of nr free entries, or IREMAP_ENTRY_NR, and adds nr to the 32-bit in-use count only when it found a run |
| IntRemap.IommuIntRemap.AllocRemapRun | xen/drivers/passthrough/vtd/intremap.c:234-269 | the corrected allocation: the first index of the first run of nr free entries, all of which are free, with no such run starting earlier |
| IntRemap.IommuIntRemap.FreeRemapEntry | xen/drivers/passthrough/vtd/intremap.c:210-228 | free_remap_entry ignores an index outside the table; otherwise it clears that entry and decrements the in-use count |
| IntRemap.IommuIntRemap.RemapEntryToIoapicRte | xen/drivers/passthrough/vtd/intremap.c:271-317 | an index outside the table or an empty entry gives -EFAULT and leaves the RTE alone; otherwise the vector, modes, trigger and destination come back from the entry |
| IntRemap.IommuIntRemap.IoapicRteToRemapEntry | xen/drivers/passthrough/vtd/intremap.c:319-395 | a pin without an index gets one from alloc_remap_entry, which is recorded only when it succeeded; an index past the table gives -EFAULT with no entry written; otherwise the entry is rewritten from the new RTE and the remappable RTE points at it |
| IntRemap.SumPinCounts | xen/drivers/passthrough/vtd/intremap.c:69-71 | the first loop of init_apic_pin_2_ir_idx computes the total number of pins of all IO-APICs |
| IntRemap.NewUnassigned | xen/drivers/passthrough/vtd/intremap.c:82-83 | every slot of the new index array starts as -1, meaning no entry assigned |
| IntRemap.SliceOffsets | xen/drivers/passthrough/vtd/intremap.c:85-90 | each IO-APIC's slice starts after the pins of those before it and ends within the array |
| IntRemap.PinMap.PinSlot | xen/drivers/passthrough/vtd/intremap.c:333 | the slot of apic_pin_2_ir_idx[apic][pin] lies inside the flat array |
| IntRemap.PinMap.Build | xen/drivers/passthrough/vtd/intremap.c:69-90 | once both arrays exist, every pin gets its own slot, set to -1, in disjoint per-IO-APIC slices |
| IntRemap.PinMap.InitApicPin2IrIdxAsWritten | xen/drivers/passthrough/vtd/intremap.c:60-93 | as written: a present map is kept (the resume path); if either allocation fails -ENOMEM is returned and, when the pointer array had been allocated, the global stays non-NULL with no map behind it; otherwise the map is built with every pin at -1 |
| IntRemap.PinMap.InitApicPin2IrIdx | xen/drivers/passthrough/vtd/intremap.c:60-93 | the corrected initialisation (see ## Findings): as above, but a failed allocation leaves no map present, so a later call allocates again |
| IntRemap.StaleMapAfterFailedInit | xen/drivers/passthrough/vtd/intremap.c:66-80 | as written, a failure of only the int array followed by a successful call gives -ENOMEM, then 0 with no map built |
| IntRemap.RetryAfterFailedInit | xen/drivers/passthrough/vtd/intremap.c:66-80 | with the corrected failure path the same two calls give -ENOMEM, then 0 with the map built |
| IntRemap.IrteFromRte | xen/drivers/passthrough/vtd/intremap.c:354-370 | the entry written for an RTE is present, has RH set exactly for lowest-priority delivery, and checks the IO-APIC's source id with SQ_ALL_16 |
| IntRemap.RemapRteFor | xen/drivers/passthrough/vtd/intremap.c:372-386 | the remappable RTE encodes the entry index in index_15 and index_0_14, has the remap format and delivery mode 0, and keeps the vector, trigger and mask |
| IntRemap.RteRoundTrip | xen/drivers/passthrough/vtd/intremap.c:271-395 | writing an RTE into an entry and reading it back gives the same vector, delivery mode, destination mode, trigger and destination (all 32 bits with x2APIC, the APIC ID without) |
| IntRemapMsi.SetMsiSourceId | xen/drivers/passthrough/vtd/intremap.c:439-501 | an unknown device type gives -EOPNOTSUPP; a conventional PCI device with no upstream bridge gives -ENXIO; every other device gets a source id |
| IntRemapMsi.PciBdfSplit | xen/drivers/passthrough/vtd/intremap.c:464 | a requester id is its slot (bus and device) times eight plus its function number |
| IntRemapMsi.PhantomKeptBits | xen/drivers/passthrough/vtd/intremap.c:457-463 | the qualifier chosen for a phantom stride compares exactly the function bits that tell functions apart modulo the stride: two functions agree on them if and only if they lie a multiple of the stride apart |
| IntRemapMsi.PcieSourceIdAcceptsPhantoms | xen/drivers/passthrough/vtd/intremap.c:453-465 | the source id given to a PCIe device accepts requests from the device and from each of its phantom functions |
| IntRemapMsi.PcieSourceIdRejectsNonPhantoms | xen/drivers/passthrough/vtd/intremap.c:453-465 | a function of the device's own slot that is not a multiple of the phantom stride away from it is refused |
| IntRemapMsi.SqKeepsSlot | xen/drivers/passthrough/vtd/intremap.c:459-462 | every qualifier compares bits 15:3 of the requester id, the slot |
| IntRemapMsi.PcieSourceIdRejectsOtherSlots | xen/drivers/passthrough/vtd/intremap.c:453-465 | whatever its qualifier, the source id given to a PCIe device refuses requests from every other slot |
| IntRemapMsi.IrteFromMsi | xen/drivers/passthrough/vtd/intremap.c:566-589 | without a posted descriptor the entry takes the message's fields and RH is set exactly for lowest priority; with one it is posted, with the guest vector; the source id is the one computed |
| IntRemapMsi.MsiFieldsReachEntry | xen/drivers/passthrough/vtd/intremap.c:566-581 | a message composed from vector, delivery mode, trigger, destination mode and destination reaches the entry with those same fields |
| IntRemapMsi.PostedDescriptorRoundTrip | xen/drivers/passthrough/vtd/intremap.c:584-587 | a 64-byte-aligned descriptor address survives its split into pda_l and pda_h |
| IntRemapMsi.MsiRemapFor | xen/drivers/passthrough/vtd/intremap.c:591-603 | the remappable message encodes the entry index as the handle with subhandle 0, or for a later vector of a multi-vector MSI the handle of vector 0 and its own number as the subhandle |
| IntRemapMsi.SetRemapIndices | xen/drivers/passthrough/vtd/intremap.c:544-557 | the loops that record the allocated run in the descriptors (index + i) or forget it (-1) |
| IntRemapMsi.FreeMsiEntries | xen/drivers/passthrough/vtd/intremap.c:529-539 | the NULL-message path frees the nr entries from remap_index and marks their descriptors unset |
| IntRemapMsi.MsiMsgToRemapEntry | xen/drivers/passthrough/vtd/intremap.c:503-615 | the corrected MSI path (see ## Findings): it allocates with AllocRemapRun, the first index of the free run, where intremap.c:543-545 takes alloc_remap_entry's last index; a source-id error is returned with nothing changed; a NULL message frees the entries; an index past the table gives -EFAULT and resets the descriptors; otherwise the first entry is rewritten, the remappable message returned, and 1 returned exactly when a free run was allocated |
| GuestXen.WordPortsSpec | xen/arch/x86/guest/xen/xen.c:219-224 | the ports of one pending word are its set bits offset by word * BITS_PER_LONG, in ascending order |
| GuestXen.PortsToSpec | xen/arch/x86/guest/xen/xen.c:212-231 | the ports of the selected words below a bound are exactly those pending and unmasked there, strictly ascending and below the bound's first port |
| GuestXen.PortsSpec | xen/arch/x86/guest/xen/xen.c:212-231 | an upcall handles exactly the ports whose word is selected, whose pending bit is set and whose mask bit is clear, each once and in ascending order |
| GuestXen.MaskedHandlesNothing | xen/arch/x86/guest/xen/xen.c:121-123 | with every mask word ~0, as map_shared_info leaves them, an upcall handles no port |
| GuestXen.RouteAllAppend | xen/arch/x86/guest/xen/xen.c:226-229 | routing the ports of two stretches one after the other is routing their concatenation |
| GuestXen.SharedInfo.MaskAllUpcalls | xen/arch/x86/guest/xen/xen.c:121-123 | the mask loop of map_shared_info sets every evtchn_mask word to all ones |
| GuestXen.DrainWord | xen/arch/x86/guest/xen/xen.c:219-230 | the inner loop handles the unmasked set bits of one word, lowest first, as ports of that word |
| GuestXen.DrainStep | xen/arch/x86/guest/xen/xen.c:221-224 | handling the lowest bit left extends the handled prefix of the word by that one port |
| GuestXen.XenEvtchnUpcall | xen/arch/x86/guest/xen/xen.c:204-234 | the upcall flag and the selector are cleared; every selected pending word is zeroed, masked bits included, and every other word kept; the ports handled are those of PortsSpec, in order |
| GuestXen.UpcallStep | xen/arch/x86/guest/xen/xen.c:212-218 | one pass of the outer loop takes the lowest selected word left, skips no selected word and extends the handled ports and the zeroed words by that word |
| GuestXen.UpcallDone | xen/arch/x86/guest/xen/xen.c:212 | when the selector is exhausted every selected word has been handled and zeroed |
| GuestXen.TakeWord | xen/arch/x86/guest/xen/xen.c:214-230 | the outer loop body exchanges the pending word with zero and handles its unmasked bits |
| GuestXen.ClearedAll | xen/arch/x86/guest/xen/xen.c:215 | zeroing the selected words leaves zero in every selected word and the other words unchanged |
| GuestXen.EarlyHypercallSetup | xen/arch/x86/guest/xen/xen.c:49-79 | the instruction must still be unset and the vendor, looked up through CPUID leaf 0 when unknown, must be one of five; Intel, Centaur and Shanghai select VMCALL (0, with USE_VMCALL), AMD and Hygon VMMCALL (1) |
| GuestXen.FindFromSpec | xen/arch/x86/guest/xen/xen.c:85-98 | the search from a base returns a candidate whose leaf is Xen's, and no candidate between the base and it has Xen's signature |
| GuestXen.FindXenLeavesSpec | xen/arch/x86/guest/xen/xen.c:81-99 | find_xen_leaves picks the lowest base, stepping by 0x100 in 0x40000000..0x4000ffff, with Xen's signature and eax - base >= 2, or leaves the base unset |
| GuestXen.FindXenLeaves | xen/arch/x86/guest/xen/xen.c:81-99 | the loop sets xen_cpuid_base to the base FindXenLeavesSpec describes |
| GuestXen.ClearCpus | xen/arch/x86/guest/xen/xen.c:288-289 | the clamp loop removes exactly the vCPUs from the legacy limit up to nr_cpu_ids from the present map |
| GuestXen.XenGuest.MapVcpuInfo | xen/arch/x86/guest/xen/xen.c:126-159 | with no array the shared_info slot is used; a mapped vCPU reuses its array slot; a successful registration marks the vCPU mapped; a failed one falls back to shared_info only below XEN_LEGACY_MAX_VCPUS and is an error otherwise |
| GuestXen.XenGuest.SetupVcpuInfo | xen/arch/x86/guest/xen/xen.c:277-294 | the array is kept exactly when it was allocated and this vCPU's slot is mapped (already registered, newly registered, or falling back to a legacy slot), and dropped otherwise; the CPU's vcpu_info pointer is the one map_vcpuinfo chose; without an array and more vCPUs than the legacy limit, the vCPUs from the limit up are removed and nr_cpu_ids is clamped to the limit |
| Softirq.ProcessIgnoreMask | xen/common/softirq.c:59-65 | process_pending_softirqs always ignores SCHEDULE_SOFTIRQ and SCHED_SLAVE_SOFTIRQ, and RCU_SOFTIRQ exactly when RCU may not quiesce |
| Softirq.DispatchedSpec | xen/common/softirq.c:36-54 | the handlers run are exactly the pending softirqs outside the ignore mask, each once and in ascending order |
| Softirq.ProcessPendingSkipsScheduler | xen/common/softirq.c:57-69 | process_pending_softirqs never runs the scheduler softirqs, nor RCU when RCU may not quiesce, and runs RCU when it is pending and allowed |
| Softirq.NeedsKick | xen/common/softirq.c:96-98 | the CPUs that need an event check are those of the mask where the softirq was not yet pending, never the calling CPU |
| Softirq.ClearLowest | xen/common/softirq.c:47-53 | one pass of the loop clears the lowest runnable softirq and extends the run list by it, skipping none |
| Softirq.DoneClearing | xen/common/softirq.c:47-49 | when nothing runnable is left the run list is complete and only the ignored softirqs stay pending |
| Softirq.Softirqs.constructor | xen/common/softirq.c:25-26 | every CPU starts with nothing pending, an empty batch mask and a zero batching count, and no handler is installed |
| Softirq.Softirqs.OpenSoftirq | xen/common/softirq.c:77-81 | open_softirq installs the handler at index nr, which must be below NR_SOFTIRQS, and changes nothing else |
| Softirq.Softirqs.RaiseSoftirq | xen/common/softirq.c:136-141 | raise_softirq sets exactly bit nr in the CPU's pending mask |
| Softirq.Softirqs.DoSoftirq | xen/common/softirq.c:28-55 | on an online CPU the handlers run are those of DispatchedSpec and only the ignored softirqs remain pending; on an offline CPU nothing runs |
| Softirq.Softirqs.ProcessPendingSoftirqs | xen/common/softirq.c:57-69 | __do_softirq with the mask of ProcessIgnoreMask |
| Softirq.Softirqs.DoAllSoftirqs | xen/common/softirq.c:71-75 | do_softirq runs every pending softirq in ascending order and leaves none pending on an online CPU, with every other CPU's pending mask unchanged; offline nothing runs and nothing changes |
| Softirq.Softirqs.CpuRaiseSoftirq | xen/common/softirq.c:104-115 | the bit is set on the target; nothing is sent when it was already pending or the target is this CPU; otherwise the target gets an event check outside a batch or in IRQ context and joins the batch mask inside one |
| Softirq.Softirqs.CpumaskRaiseSoftirq | xen/common/softirq.c:83-102 | the bit is set on every CPU of the mask; the CPUs of NeedsKick get an event check now, or join the batch mask while batching outside IRQ context |
| Softirq.Softirqs.BatchBegin | xen/common/softirq.c:117-120 | batch_begin increments this CPU's batching count and nothing else |
| Softirq.Softirqs.BatchFinish | xen/common/softirq.c:122-134 | the CPUs of the batch mask that still have something pending get an event check, the mask is emptied and the batching count drops by one |
| Gcov.GcovCounters | xen/common/coverage/gcc_4_7.c:21-35 | GCOV_COUNTERS for a supported GCC version is 8, 9 or 10 |
| Gcov.UnitSize | xen/common/coverage/gcc_4_7.c:39-44 | lengths are counted in words (1) before GCC 12 and in bytes (4) from GCC 12 on |
| Gcov.CounterActive | xen/common/coverage/gcc_4_7.c:113-116 | counter_active is 1 exactly when the type's merge function is set and 0 otherwise |
| Gcov.U64Words | xen/common/coverage/gcc_4_7.c:208 | a 64-bit value is stored as two 32-bit words, low word first, which recombine to the value |
| Gcov.ValueWordsDecode | xen/common/coverage/gcc_4_7.c:207-208 | every counter value can be read back from its two stored words |
| Gcov.Header | xen/common/coverage/gcc_4_7.c:174-182 | the header is three words before GCC 12 and four from GCC 12 on |
| Gcov.GcdaSize | xen/common/coverage/gcc_4_7.c:165-215 | the file is magic, version, stamp (and a zero checksum from GCC 12), then five words per function and two words plus two per value per active counter |
| Gcov.OverwriteAppend | xen/common/coverage/gcc_4_7.c:172-214 | storing two stretches one after the other at an advancing position is storing their concatenation |
| Gcov.GcovInfo.Reset | xen/common/coverage/gcc_4_7.c:131-150 | gcov_info_reset zeroes every value of every active counter of every function; the cursor moves on only at active types, and nothing else changes |
| Gcov.ResetZeroes | xen/common/coverage/gcc_4_7.c:131-150 | after a reset every counter value is zero and no counter changes its length |
| Gcov.GcovList.Link | xen/common/coverage/gcc_4_7.c:118-122 | gcov_info_link pushes the object onto the head of the list, its next pointing at the old head |
| Gcov.GcovList.NextWalks | xen/common/coverage/gcc_4_7.c:124-129 | gcov_info_next(NULL) gives the head and each object's next the one linked before it, ending with NULL |
| Gcov.StoreU32 | xen/common/coverage/gcc_4_7.c:175 | storing an unsigned int word (below 2^32) writes it when there is a buffer and counts four bytes either way |
| Gcov.StoreU64 | xen/common/coverage/gcc_4_7.c:208 | storing a 64-bit value writes its low and high words when there is a buffer and counts eight bytes either way |
| Gcov.StoreValues | xen/common/coverage/gcc_4_7.c:207-208 | the innermost loop stores the values of one counter, two words each |
| Gcov.StoreCounterRecord | xen/common/coverage/gcc_4_7.c:202-208 | an active counter's record is its tag, its length num * 2 * unit as an unsigned int (taken modulo 2^32) and its values |
| Gcov.CtrWordsStep | xen/common/coverage/gcc_4_7.c:197-211 | the records up to type t + 1 extend those up to t by type t's record exactly when it is active |
| Gcov.StoreCounters | xen/common/coverage/gcc_4_7.c:195-211 | the middle loop stores the records of the active counters of one function in type order, its cursor moving on at active types only |
| Gcov.StoreFunction | xen/common/coverage/gcc_4_7.c:186-211 | one function record is tag, length 3 * unit, ident, lineno_checksum and cfg_checksum, then its counter records |
| Gcov.StoreHeader | xen/common/coverage/gcc_4_7.c:174-182 | the start of the file is magic, version, stamp and, from GCC 12, a zero checksum |
| Gcov.StoreFunctions | xen/common/coverage/gcc_4_7.c:184-212 | the outer loop stores every function record after the header |
| Gcov.FnsStep | xen/common/coverage/gcc_4_7.c:184-212 | the records of the first n + 1 functions extend those of the first n |
| Gcov.GcovInfoToGcda | xen/common/coverage/gcc_4_7.c:165-215 | the size returned is four times the number of words of the file, with or without a buffer, and with a buffer those words are stored from its start |
| Powernow.Fid | xen/arch/x86/acpi/cpufreq/powernow.c:158 | the frequency ID is bits 5:0 of the low half of the P-state definition |
| Powernow.Did | xen/arch/x86/acpi/cpufreq/powernow.c:159 | the divisor ID is bits 8:6 of the low half |
| Powernow.FixupFrequency | xen/arch/x86/acpi/cpufreq/powernow.c:141-164 | for family 10h below model 10 and family 11h with PstateEn set, the core frequency becomes (100 * (fid + 16)) >> did or (100 * (fid + 8)) >> did; otherwise the state is unchanged; latency and control are never touched |
| Powernow.ShrMono | xen/arch/x86/acpi/cpufreq/powernow.c:161-163 | shifting right preserves order |
| Powernow.ShrMore | xen/arch/x86/acpi/cpufreq/powernow.c:161-163 | shifting further never gives more |
| Powernow.CofBounds | xen/arch/x86/acpi/cpufreq/powernow.c:158-163 | the recomputed frequency lies in 12..7900 MHz for family 10h and 6..7100 MHz for 11h |
| Powernow.CofMonotone | xen/arch/x86/acpi/cpufreq/powernow.c:158-163 | a larger frequency ID never gives a slower frequency and a larger divisor ID never a faster one |
| Powernow.MaxHwPstate | xen/arch/x86/acpi/cpufreq/powernow.c:178-180 | HW_PSTATE_MAX is bits 7:4 of the current-limit MSR |
| Powernow.LoopEnd | xen/arch/x86/acpi/cpufreq/powernow.c:271 | the table loop stops at state_count or at max_hw_pstate + 1, whichever comes first |
| Powernow.KeptSlower | xen/arch/x86/acpi/cpufreq/powernow.c:272-274 | a state is kept only when its frequency in kHz, as a 32-bit value, is below the last kept entry's |
| Powernow.TableFirst | xen/arch/x86/acpi/cpufreq/powernow.c:271-280 | the table starts with state 0's entry |
| Powernow.TableDecreasing | xen/arch/x86/acpi/cpufreq/powernow.c:271-280 | the table's frequencies strictly decrease |
| Powernow.TableFromStates | xen/arch/x86/acpi/cpufreq/powernow.c:276-278 | each entry has index control & HW_PSTATE_MASK and frequency core_frequency * 1000 of a state at most max_hw_pstate |
| Powernow.TableStops | xen/arch/x86/acpi/cpufreq/powernow.c:271 | no state beyond the end of the loop is considered |
| Powernow.TableKeepsDecreasing | xen/arch/x86/acpi/cpufreq/powernow.c:271-280 | when the states are listed fastest first and fit in kHz, every state up to max_hw_pstate is kept, in order |
| Powernow.MaxLatency | xen/arch/x86/acpi/cpufreq/powernow.c:258-264 | the latency loop keeps an unsigned int |
| Powernow.MaxLatencySpec | xen/arch/x86/acpi/cpufreq/powernow.c:258-264 | when the latencies fit in nanoseconds, the transition latency is the largest latency * 1000, or 0 for no state |
| Powernow.LatencyIgnoresFrequency | xen/arch/x86/acpi/cpufreq/powernow.c:258-268 | the latency depends only on the latencies, which the frequency fix-up leaves alone |
| Powernow.CpbValue | xen/arch/x86/acpi/cpufreq/powernow.c:62-65 | CPBDIS is clear exactly when boost is enabled; every other bit of MSR_K8_HWCR is kept |
| Powernow.UpdateCpb | xen/arch/x86/acpi/cpufreq/powernow.c:53-69 | nothing is written when turbo is unsupported; otherwise CPBDIS is cleared exactly when turbo is enabled and every other bit kept |
| Powernow.UpdateCpbIdempotent | xen/arch/x86/acpi/cpufreq/powernow.c:53-69 | applying update_cpb twice writes the same value as once |
| Powernow.CpufreqUpdate | xen/arch/x86/acpi/cpufreq/powernow.c:71-80 | an offline CPU gives -EINVAL; otherwise update_cpb runs on it and 0 is returned |
| Powernow.Perf.GetCpuData | xen/arch/x86/acpi/cpufreq/powernow.c:171-184 | get_cpu_data reads HW_PSTATE_MAX and fixes up every state up to it, leaving the others as they were |
| Powernow.BuildFreqTable | xen/arch/x86/acpi/cpufreq/powernow.c:270-281 | the table holds the kept entries then the terminator; the loop stops at LoopEnd |
| Powernow.KeepStates | xen/arch/x86/acpi/cpufreq/powernow.c:271-280 | the loop writes the entries of the table in order, valid_states counting them, and leaves the slots after them alone |
| Powernow.TableStep | xen/arch/x86/acpi/cpufreq/powernow.c:272-279 | one more state either appends its entry to the table or is skipped |
| Powernow.InitialCurIsTableEnd | xen/arch/x86/acpi/cpufreq/powernow.c:297 | with two states of 2000 and 1000 MHz the loop ends at i = 2, the terminator, so policy->cur as written would be CPUFREQ_TABLE_END rather than 2000000 kHz |
| Powernow.SetupTable | xen/arch/x86/acpi/cpufreq/powernow.c:257-282 | the transition latency is the maximum latency, the states are fixed up, the table is built and perf->state is 0 |
| Powernow.Powernow.CpuInit | xen/arch/x86/acpi/cpufreq/powernow.c:203-307 | the corrected initialisation (see ## Findings): policy->cur is taken from P-state 0, where powernow.c:297 reads freq_table[i] with the loop's final i; -ENOMEM when the data cannot be allocated; -ENODEV for an unsupported sharing, one P-state or mismatched space ids, with the driver data dropped; past those checks -ENOMEM when the table cannot be allocated and otherwise cpufreq_frequency_table_cpuinfo's result; on success the table is built, the resume flag set, turbo enabled with CPB, and policy->cur is P-state 0's frequency |
| Powernow.Powernow.Target | xen/arch/x86/acpi/cpufreq/powernow.c:83-139 | -ENODEV without driver data; the table lookup's error is passed on; the same state as the current one writes nothing unless the resume flag is set, which it clears; otherwise perf->state and policy->cur take the chosen entry |
| Powernow.Powernow.CpuExit | xen/arch/x86/acpi/cpufreq/powernow.c:309-320 | powernow_cpufreq_cpu_exit forgets the CPU's driver data and returns 0 |
| Traps.LeRoundTrip | xen/arch/x86/x86_64/traps.c:304-327 | a value that fits in n bytes is read back from its little-endian n-byte store |
| Traps.RoundUp16 | xen/arch/x86/x86_64/traps.c:330 | ROUNDUP(x, 16) is the least multiple of 16 at or above x |
| Traps.StackSwitchSpec | xen/arch/x86/x86_64/traps.c:304-322 | the stack switch is 48 a3 imm64, 48 89 e0, 48 bc imm64, and both immediates are stack_bottom - 8 |
| Traps.JumpSpec | xen/arch/x86/x86_64/traps.c:324-327 | the jump is e9 rel32, and rel32 added to the address just past it gives the target when the target is within reach |
| Traps.TrampolineSpec | xen/arch/x86/x86_64/traps.c:292-331 | the trampoline is 28 bytes, 32 with the endbr64 prefix, so it always takes 32 bytes of stub space; it opens with endbr64 under IBT; both immediates are stack_bottom - 8; the jump reaches the target |
| Traps.Pieces | xen/arch/x86/x86_64/traps.c:298-327 | the prefix, the stack switch and the jump lie one after the other in the trampoline |
| Traps.Put | xen/arch/x86/x86_64/traps.c:304-322 | a run of byte stores at an advancing cursor places those bytes and leaves the rest of the buffer alone |
| Traps.PutStackSwitch | xen/arch/x86/x86_64/traps.c:304-322 | the middle of write_stub_trampoline places the stack switch at the cursor |
| Traps.PutJump | xen/arch/x86/x86_64/traps.c:324-327 | the end of write_stub_trampoline places the opcode and the displacement computed from the cursor |
| Traps.WriteStubTrampoline | xen/arch/x86/x86_64/traps.c:292-331 | the trampoline is written from the given index, the bytes around it are kept, and the length returned is its size rounded up to 16, which is 32 |
| Traps.SameStubPage | xen/arch/x86/x86_64/traps.c:370-375 | the second trampoline lies 32 bytes further into the same stub page |
| Traps.Splice2 | xen/arch/x86/x86_64/traps.c:356-375 | two writes 32 bytes apart leave both trampolines in place and the bytes around them untouched |
| Traps.PercpuTrampolines | xen/arch/x86/x86_64/traps.c:338-384 | the 64-bit SYSCALL trampoline sits at the start of the CPU's stubs (the MSR_LSTAR value), the compatibility one 32 bytes on (MSR_CSTAR), and the stub offset advances by 64 |
| Traps.PvCrs | xen/arch/x86/x86_64/traps.c:190-198 | for a PV vCPU crs[0] and crs[2..5] come from the vCPU, cr3 from the kernel or user page table, and in kernel mode slot 6 holds the kernel GS base and slot 7 the user one |
| Traps.PvCrsSwap | xen/arch/x86/x86_64/traps.c:190-198 | outside kernel mode the report differs from the kernel-mode one only in cr3 and in the two GS slots, exchanged |
| Xenoprof.Requested | xen/arch/x86/oprofile/xenoprof.c:28-35 | the slot configuration a request asks for has the request's six fields |
| Xenoprof.Configure | xen/arch/x86/oprofile/xenoprof.c:25-35 | the addressed slot takes the requested fields when the index is in range; every other slot is unchanged |
| Xenoprof.ConfigureIdempotent | xen/arch/x86/oprofile/xenoprof.c:28-35 | repeating a request changes nothing more |
| Xenoprof.ConfigureCommutes | xen/arch/x86/oprofile/xenoprof.c:28-35 | requests for two different slots can be made in either order |
| Xenoprof.ConfigureOverwrites | xen/arch/x86/oprofile/xenoprof.c:28-35 | a later request for the same slot wins outright |
| Xenoprof.CounterRc | xen/arch/x86/oprofile/xenoprof.c:18-36 | the result is -EFAULT exactly when the copy failed, 0 exactly when it succeeded with an index below OP_MAX_COUNTER, and -E2BIG otherwise |
| Xenoprof.Oprofile.constructor | xen/arch/x86/oprofile/xenoprof.c:18-53 | the counter table has OP_MAX_COUNTER zeroed slots and the IBS configuration is zeroed |
| Xenoprof.Oprofile.ArchCounter | xen/arch/x86/oprofile/xenoprof.c:18-36 | xenoprof_arch_counter (and compat_oprof_arch_counter, which differs only in the guest layout) returns CounterRc; on an error nothing is written, on success only the addressed slot changes and holds the six requested fields |
| Xenoprof.Oprofile.ArchIbsCounter | xen/arch/x86/oprofile/xenoprof.c:38-53 | -EFAULT with nothing written when the copy fails; otherwise the six IBS fields take the guest's values and 0 is returned |
| Xenoprof.GetMode | xen/arch/x86/oprofile/xenoprof.c:79-96 | outside guest mode the sample is Xen's (2); a PV guest's is kernel exactly when guest_kernel_mode holds; an HVM guest's is kernel in real mode, user in VM86 mode, and otherwise kernel exactly when CPL is not 3 |

## Left out

- Grant tables, maptrack and event-channel ports: xen/include/xen/grant_table.h only declares that interface and gives trivial stubs, and the implementation is not part of this model.
- Locks, atomic exchanges, `cmpxchg16b` and the ordering between CPUs: every member is a sequential step taken with its lock held.
- Hardware and firmware I/O: MSR reads and writes, CPUID, SMC calls, hypercalls, APIC acknowledgements, IPIs, cache syncs and IEC flushes. Their results are parameters; the value a write would store is returned instead.
- Constants from headers that are not part of this model are taken as the headers define them:
  - IREMAP_ENTRY_NR 0x10000;
  - OP_MAX_COUNTER 8;
  - XEN_LEGACY_MAX_VCPUS 32;
  - CPUFREQ_TABLE_END 0xfffffffe;
  - the gcov magic and tags;
  - the number of common softirqs.

  E820MAX and the CPUID array sizes are parameters.
- e820.c: `mtrr_top_of_ram`, the DMI quirks and the printing of the map (lines 421-494) are hardware reads and output.
- e820.c: `init_e820` only calls the modelled operations.
- vmap.c: page mapping and page allocation are an oracle budget of bitmap pages; `vmap`, `vunmap` and `vmalloc` themselves are mapping work.
- E820.E820Map.ClipToLimit, E820.E820Map.ClipEntry: both require the table to be sorted and non-overlapping, as the comment at e820.c:40-44 says of the global table, so the deletion branch at e820.c:402-406 is not modelled. The source can still reach that branch: `machine_specific_memory_setup` (e820.c:499-500) ignores `sanitize_e820_map` returning -1 on a wrapping firmware entry, and `copy_e820_map` then adds the earlier entries unsorted. Clipping such a table is not modelled.
- Vmap.VmRegion.Index: for index 0 it returns 0 instead of reading bit -1 of the bitmap as the source's unsigned arithmetic does. That index lies in the bitmap's own pages, which the range check already refuses.
- copy-from-buffer.c and copy-to-buffer.c: guest-copy faults (`-EFAULT`) and NULL error pointers are not modelled. `x86_cpu_policy_recalc_synth` is a flag saying whether it runs.
- ffa.c: the call dispatcher `ffa_handle_call` and `handle_msg_send_direct_req` are not modelled. Of `ffa_probe`, only the version check is modelled.
- ffa.c: guest page reference counting and mapping are reduced to whether the pages were found.
- Ffa.FfaCtx.HandlePartitionInfoGet: requires the partition count the SPMC reports to fit the descriptors it supplied; the source trusts the firmware there.
- FfaMediator.Mediator.InitSps: requires the partition count the SPMC reports to fit the descriptors it supplied; the source trusts the firmware there.
- domain.c: the context switch and the idle loop (lines 37-333) are hardware state.
- domain.c: the p2m and page helpers called by the relinquish phases are oracles.
- domain.c: the upper halves of the 32-bit register union are not modelled. PCI support is taken as configured.
- ArmDomain.SanitiseDomainConfig: returns the configuration unchanged when it refuses it, whereas domain.c:655-664 stores the host's GIC version into config->arch.gic_version before the checks at :674-699 can still return -EINVAL; callers discard a refused configuration, so only the success result is modelled.
- intremap.c: `enable_intremap`, `disable_intremap` and the EIM functions are register programming and busy waits.
- intremap.c: the `io_apic_*_remap_rte`, `msi_msg_write_remap_rte` and `intel_setup_hpet_msi` wrappers only locate the IOMMU and call the modelled conversions.
- intremap.c: `apicid_to_bdf`, `hpetid_to_bdf`, `find_upstream_bridge` and `pdev_type` are parameters.
- intremap.c: the remappable MSI message is built as the fields the overlay writes (index, SHV, format, address_hi and data). Bits 31:20 of address_lo and the dest32 field of the original message, which the overlay leaves in place, are not carried into it.
- xen.c: `init_memmap`, `xg_alloc_unused_page`, `set_vcpu_id`, `init_evtchn`, `ap_setup`, `resume`, `xg_probe` and the hypercall part of `map_shared_info` are hypercalls and rangeset calls.
- xen.c: the PV console and shim handlers are the action the upcall routes each port to.
- softirq.c: what the handlers do, RCU processing and the scheduler's moving of the loop to another CPU are not modelled. A handler is an identifier.
- softirq.c: `arch_set_softirq` is the generic test-and-set.
- gcc_4_7.c: `gcov_info_filename` returns a field. `gcov_store_uint32` and `gcov_store_uint64` live in a header that is not part of this model; they are StoreU32 and StoreU64, writing to a buffer of 32-bit words.
- powernow.c: `powernow_cpufreq_verify`, governor selection, statistics and driver registration are not modelled. Which CPUs perform a transition is not modelled, only the value written.
- powernow.c: `cpufreq_frequency_table_target` and `cpufreq_frequency_table_cpuinfo` are parameters (their result code and chosen entry).
- traps.c: the STAR, SFMASK and SYSENTER writes of `subarch_percpu_traps_init`, the register dumps and the page walk are hardware state and output.
- xenoprof.c: guest handles are copy results (None for a fault). `compat_oprof_arch_counter` differs from `xenoprof_arch_counter` only in the guest layout, so one member models both.

## Findings

| source | as written | input that shows it | evidently intended | confidence | as-written member | corrected member |
|---|---|---|---|---|---|---|
| xen/arch/x86/e820.c:547-551 | when the new range abuts an entry of the same type from below, the entry's start is moved down to s but its size is not changed, so the entry shifts instead of growing | map [0x2000, 0x3000) RAM, add [0x1000, 0x2000) RAM: the entry becomes [0x1000, 0x2000) and [0x2000, 0x3000) is no longer mapped | the entry grows to [s, old end) | not executed | E820.AddRangeAsWrittenLosesRange | E820.E820Map.AddRange |
| xen/arch/arm/tee/ffa.c:599-601 | after fetching the RX page the code tests the TX page again, so a NULL rx_pg goes on to put_page or to the mapping | a 64-bit call whose TX address is a normal RW RAM page and whose RX address has no page behind it | test rx_pg and fail with INVALID_PARAMETERS, as for the TX page | not executed | Ffa.RxtxMapNullRxPage | Ffa.FfaCtx.HandleRxtxMap |
| xen/drivers/passthrough/vtd/intremap.c:234-269 | alloc_remap_entry returns the last index of the free run it found, while msi_msg_to_remap_entry gives the nr vectors the entries index .. index + nr - 1 | entry 2 in use, nr = 2: the result is 1, so vector 1 is given entry 2, which is in use | return the first index of the run | not executed | IntRemap.AllocEndNotRunStart | IntRemap.IommuIntRemap.AllocRemapRun |
| xen/arch/x86/acpi/cpufreq/powernow.c:297 | policy->cur is read from freq_table[i] with the loop's final i, which is the terminator slot (or a slot never written when states were skipped) | two states of 2000 and 1000 MHz: i ends at 2 and policy->cur becomes CPUFREQ_TABLE_END | the frequency of P-state 0, which perf->state is reset to | not executed | Powernow.InitialCurIsTableEnd | Powernow.Powernow.CpuInit |
| xen/drivers/passthrough/vtd/intremap.c:73-80 | when the int array cannot be allocated but the pointer array can, both are freed and -ENOMEM returned, yet apic_pin_2_ir_idx keeps the freed pointer, so every later call takes the `!= NULL` early return at :66-67 | int-array allocation fails, pointer-array allocation succeeds; on the next enable_intremap (another IOMMU, or resume) the call returns 0 and IO-APIC RTE updates index a freed array | set apic_pin_2_ir_idx to NULL on the failure path | not executed | IntRemap.StaleMapAfterFailedInit | IntRemap.PinMap.InitApicPin2IrIdx |
