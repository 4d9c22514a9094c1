# PTEditor page-table engine: a verified model

PTEditor lets a user program read and change page-table entries. Its core is a walk of the paging
radix tree in physical memory, an update that writes back a chosen subset of the entries on that walk,
and a PTE-level interface (set a bit, clear a bit, set the frame number) built as read-modify-write on
both. All tables lie in one flat memory, so "this edit changes only that page" is a statement about
aliasing. It holds because tables are tree shaped, and because every edit keeps them so. This project
states and proves that, and what depends on it: the kernel module's second implementation of the same
walk and update, its lock protocol, TLB invalidation, the page-table dump, physical addresses, and the
memory-type registers.

## Main results

- **Data refinement over all runs** (`Runs.RunRefinesFlat`, `RunKeepsUpper`, `RunFrame`). On tree-shaped
  tables any sequence of PTE edits, on any addresses and processes, is a sequence of point updates of a
  flat map from (address space, page) to entry. Nothing else in memory changes, edits without a
  page-table entry do nothing, and the tables stay tree shaped. `Library.Ptedit.CallAll` shows that any
  sequence of library calls is such a run, `Example.OneTreeIsShaped` that the assumption can be met,
  `Runs.SharedSlotChanges` that it is needed.
- **The unrolled walk is the radix lookup** (`Resolve.ResolveUserExt`, `ResolvedValid`, `ResolvedEntry`)
  for every paging definition, folded levels included, and **an update is read back exactly**
  (`Update.ReadBack`) for every mask: the whole result, folded copies and unread levels included.
- **Two implementations compared exactly.** The walks of kernel module and library are the same if and
  only if both understand every entry above the page table alike (`Agreement.WalksAgree`,
  `DescendAlikeMeans`). Where they are, the two updates, each from its own walk and with its own
  validity rules and write order, leave the same memory if and only if they leave the same word in every
  slot of the walk (`Agreement.UpdatesAgree`). That fails at a selected root entry that is not present,
  at a selected PUD or PMD that is zero, and at a folded P4D with a value of its own
  (`Example.ZeroRootDiffers`, `ZeroPmdDiffers`). Whole runs of PTE edits agree (`Interchange.RunsAgree`).
- **Concurrent calls** (`Interleaving.NothingIsLost`, `TwoEdits`): any interleaving of PTE edits of
  different pages leaves the memory of a sequential run, in whatever order. Two edits of one page leave
  the memory of one of the two orders, in every interleaving, if and only if each of them on its own
  does; for two bits that are set, if and only if they are the same or both set already. Otherwise one
  is lost (`LostUpdate`, `LostBit`).
- **TLB coherence** (`Tlb.RunIsCoherent`, `NothingStaleAtRest`, `KernelFlushSuffices`): with a processor
  that walks by its own rules and caches or drops translations at any step, and any interleaving of
  updates, only a page inside an unfinished update can be stale. Whole sequences of library calls leave
  nothing stale (`Library.Ptedit.CallsAreCoherent`). After an update of upper levels only translations
  whose walk reads a changed word can be stale (`Tlb.AnyUpdateIsLocal`), and neighbours of the given page
  are (`Example.NeighbourIsStale`).
- **Locks** (`Locks.MutualExclusion`, `EveryUpdateTakesEffect`, `ResolveIsSnapshot`, `UndisturbedResolve`,
  `ResolveSeesFinished`, `NoDeadlock`, `CanFinish`): under every schedule the updates are serialised, each
  of them once, in an order that respects real time; a resolve is a snapshot after a prefix of them; and
  no state is stuck.
- **Whose tables** (`Library.Ptedit.OwnTables`, `StoredTables`, `SetPagingRoot`): every call for another
  process resolves and writes in the tables of that process; for pid 0 user-space implementations use
  those of the stored root.
- **The dump is exact** (`MemMap.Dump`, `DumpIsExact`): the nested loops list exactly the pages the walk
  resolves to a present leaf, in ascending order, with the right total.
- **Lenses, memory types, translation**: laws of the entry editors, with the exact condition under which
  any number of them can be reordered; the search, use and run-time programming of memory types; and the
  physical address, each with the exact condition under which the code meets its promise.

## How things are modelled

A 64-bit word is the set of its one bits, so `&`, `|` and `& ~` are set operations; frame numbers and
addresses are natural numbers. Physical memory is a map from byte address to word: a failed read yields
zero and a failed write does nothing, as with `pread` and `pwrite`. The `valid` bitmask is a set of
levels. `Path` is the generic recursive lookup; the library, the kernel module and the dump differ in
the `Rules` they give it (when to descend, which frame bits to follow), and `Radix.SamePaths` says
exactly when two of them make the same walk. Tables, pointers and processes
of the kernel are values; the library's globals and the memory it edits are fields of the class
`Library.Ptedit`, whose methods are proved against the functions the theorems are about.

Assumptions about Linux on x86: an entry is none exactly when it is zero; a P4D entry is bad when it has
a flag other than P, RW, US, A, D and NX; a PUD is a leaf when it is present with bit 7 set, a PMD when
bit 7 is set; tables are named by bits 12 to 51; the tests of the folded PGD always pass; a process
has a root table. A reader-writer lock admits many readers or one writer.

The processor has rules of its own (`Tlb.Cpu`): section 4.5 of Intel SDM Volume 3A with frame bits 12 to
51 and large pages in PUD and PMD, and the VMSAv8-64 descriptors of Arm ARM DDI 0487 with 4 KiB pages.
The coherence theorems assume that it walks the tables as the library does; `Tlb.ProcessorAgrees` says
that this is so on aarch64, and on x86 if and only if tables lie in frames below 2^28 and there is no
1 GiB leaf. Translations are cached by address space and page.

`Forest.limit` bounds the pages for which tables must be tree shaped, so that the upper half of the
address space, whose tables all processes share, can be left out.

Where the code and its documentation or intent disagree, the model follows the code:

- `ptedit_set_mt` is documented for slots 0 to 7. Its mask is a 32-bit `int`, and it is exact for slots 0
  to 3 on x86 and 0 to 2 on aarch64 (`MemoryTypes.ClearMaskExact`). For the other slots of x86
  `HighSlotsGoWrong` says what happens instead; `SetMtAsDocumented` and `ArmSetMtAsDocumented` say exactly
  when it does no harm.
- The physical address of demos/virt2phys.c is right on all of a 2 MiB page exactly when bits 12 to 20
  of its entry are clear; bit 12 is the PAT bit (`Translation.LargeIsCorrectEverywhere`).
- `ptedit_set_pfn` ors frame bits beyond the field into the entry (`EntryBits.PutPutPfn`, `EditIsPatch`).
- A set `valid` bit below the PGD means that the entry was read, not that it is present
  (`Resolve.ValidIsNotPresent`).
- The library's walk does not test for 1 GiB leaves (`Agreement.GiantPage`), and its frame field for
  tables has 28 bits where `ptedit_get_pfn` uses 40 (`Paging.FrameFieldsAgree`).
- `is_same` accumulates into an `int` and so compares the low 32 bits (`Agreement.IsSameMeans`).

## Model

| member | source | states |
|---|---|---|
| `Paging.FrameFieldsAgree` | ptedit.h:303-318 | the 28-bit frame field of an entry and bits 12 to 51 spell the same number if and only if bits 40 to 51 are clear |
| `Paging.LibraryTests` | ptedit.c:142-206 | the bits the library tests: 0 on x86, and 7 directly above the page tables; 0 and 1 on aarch64 |
| `Paging.KernelTests` | module/pteditor.c:268-319 | the bits the kernel tests, level by level: no flag at the root but 0, 1, 2, 5, 6 and 63, not 0 and 7 in a PUD, not 7 in a PMD, and never a zero entry |
| `Paging.FrameBounds` | ptedit.h:303-318 | every table an entry can name is page aligned and below 2^40 for the library on x86, 2^48 on aarch64, 2^52 for the kernel, and the last page below each bound is named |
| `Paging.TableIsMaskedEntry` | ptedit.c:153-154 | the table an entry names starts at the address that the entry spells once all bits outside the frame field are cleared: bits 12 to 39 stay on x86, 12 to 47 on aarch64, 12 to 51 for the kernel |
| `Paging.KnownLevels` | ptedit.c:459-498 | the three paging definitions are these levels, with these spans and table sizes |
| `Radix.X86Layout` | ptedit.c:459-470 | four levels of 9 bits form a contiguous radix layout that covers 48 bits |
| `Radix.Arm16KLayout` | ptedit.c:472-483 | four levels of 11 bits form one that covers 58 bits |
| `Radix.Arm4KLayout` | ptedit.c:486-496 | three levels of 9 bits form one that covers 39 bits |
| `Radix.SplitThenAssemble` | ptedit.c:117-133 | for every radix layout the indices fit their tables, and indices and page offset reassemble to the address modulo the covered range |
| `Radix.AssembleThenSplit` | ptedit.c:117-133 | splitting a reassembled address gives back exactly the indices it was made of |
| `Radix.PageBaseIsAddressBits` | ptedit.c:117-133 | what a walk sees of an address is its bits between page offset and covered range |
| `Radix.SamePageSameIndices` | ptedit.c:117-133 | two addresses have equal indices if and only if they lie in the same page of the covered range |
| `Radix.SamePageSameWalk` | test/tests.c:140-151 | all addresses of one page resolve alike, in every memory and from every root |
| `Radix.VisitShape` | ptedit.c:146-200 | every entry a walk reads lies at eight times its index in its table |
| `Radix.SamePaths` | ptedit.c:146-200 | two ways of reading entries make the same walk if and only if they take every entry above the page table alike: both stop, or both go on to the same table |
| `Radix.SlotInFrame` | ptedit.c:146-200 | for tables of any size every slot is 8-byte aligned inside its table, a table aligned to its size is the frame of its slots, and below the root all are under the bound of the frame field |
| `Resolve.SlotInDefinition` | ptedit.c:459-498 | for each of the three definitions slots lie in the page that starts at their table, which is the frame the parent names (with 16 KiB pages if the table is aligned to it); on x86 below 2^40 |
| `Tree.SlotHasOnePage` | ptedit.c:146-200 | in tree-shaped tables a page-table slot is read by the walks of one page of one address space, and by no walk as an upper entry |
| `Tree.PointUpdate` | ptedit.c:262-264 | writing the PTE of one page changes the walks of that page only, and of those only the PTE |
| `Tree.PteAfterWrite` | ptedit.c:262-264 | after the write the same slot is found with the new value, and every other page has its old entry |
| `Tree.WriteKeepsTree` | ptedit.c:262-264 | tables stay tree shaped, whatever value is written |
| `Example.OneTreeIsShaped` | ptedit.c:146-200 | a concrete four-level tree satisfies the tree-shape assumption for all addresses below its limit |
| `Example.OneTreeIsMapped` | ptedit.c:146-200 | it covers every address, and its first page has an entry in readable memory |
| `EntryBits.PutGetPfn` | ptedit.c:306-324 | the frame number read after setting it is the one set, truncated to bits 0 to 39 on x86 and 0 to 35 on aarch64, for every number |
| `EntryBits.GetPfnMeans` | ptedit.c:318-324 | the frame number that is read is the number in bits 12 to 51 of the entry on x86, 12 to 47 on aarch64 |
| `EntryBits.SetPfnMeans` | ptedit.c:306-314 | after setting a frame number these bits spell it, truncated to them, and every other bit is set exactly if it was or if the frame number overflows into it |
| `EntryBits.GetPutPfn` | ptedit.c:306-324 | setting the frame number that was read changes nothing |
| `EntryBits.PutPutPfn` | ptedit.c:306-314 | the second of two frame numbers wins if and only if the first leaves no overflow bit that neither the entry nor the second has |
| `EntryBits.GetPfnIsBitField` | test/tests.c:205-208 | `ptedit_get_pfn` equals the bit-field frame if and only if bits 40 to 51 are clear |
| `EntryBits.ApplyMtMeans` | ptedit.c:825-850 | on x86 the index bits go to bits 3, 4 and 7 (12 in large pages), low bit first, and all other bits stay |
| `EntryBits.ArmApplyMtMeans` | ptedit.c:832-833 | on aarch64 bits 2 to 4 spell the index, and all other bits stay |
| `EntryBits.PutGetMt` | ptedit.c:825-868 | an applied memory-type index is extracted again, normal and huge, on both architectures |
| `EntryBits.GetPutMt` | ptedit.c:825-868 | applying the extracted index changes nothing |
| `EntryBits.PutPutMt` | ptedit.c:825-850 | the second of two applied indices wins |
| `EntryBits.ClearThenSetBit` | ptedit.c:899-914 | setting a bit that was cleared restores the entry |
| `EntryBits.EditIsPatch` | ptedit.c:306-314 | an edit overwrites its own field only, if and only if no frame bit outside the field is new |
| `EntryBits.MtIsPatch` | ptedit.c:825-850 | applying a memory type overwrites exactly the three memory-type bits |
| `EntryBits.Commute` | ptedit.c:306-314 | two editors (bits, frame number, memory type) commute, on any entry, if and only if neither sets a bit that the other clears and does not set |
| `EntryBits.DisjointCompatible` | ptedit.c:306-314 | for editors of disjoint fields that is so if and only if the bits of a frame number beyond its field do not disturb the other one |
| `EntryBits.EditorsInAnyOrder` | ptedit.c:825-850 | any sequence of editors gives the same entry in every order if and only if they are pairwise compatible in this sense |
| `EntryBits.OverflowBreaksOrder` | ptedit.c:306-314 | setting frame number 2^48 and clearing bit 60 have disjoint fields and give different entries in the two orders |
| `Runs.EditRefinesFlat` | ptedit.c:899-936 | one PTE edit is one point update of the flat map, or nothing without an entry |
| `Runs.RunRefinesFlat` | ptedit.c:899-936 | any sequence of edits on any addresses and processes is the same sequence of point updates, and keeps tables tree shaped |
| `Runs.RunKeepsUpper` | ptedit.c:237-279 | no run changes an entry above the page tables, or where any walk goes |
| `Runs.RunFrame` | ptedit.c:237-279 | a run changes no word of memory but the page-table slots its operations address before the run |
| `Runs.EditsCommute` | ptedit.c:899-936 | PTE edits of different pages commute |
| `Runs.HarmlessMeans` | ptedit.c:899-936 | two edits leave the same memory in both orders if and only if they are of different pages, of a page without an entry, or compatible |
| `Runs.RunInAnyOrder` | ptedit.c:899-936 | a run of edits leaves the same memory in every order if and only if any two of its edits of one page that has an entry are compatible |
| `Runs.AlikeWalks` | ptedit.c:146-200 | whoever reads every entry above the page tables like the library makes the same walks |
| `Runs.WriteKeepsAlike` | ptedit.c:262-264 | and still does after any write of a page-table entry |
| `Runs.ClearIsUndoable` | ptedit.c:899-914 | clearing any set bit of a PTE, the present bit included, is undone by setting it: memory is as before |
| `Runs.SharedSlotChanges` | ptedit.c:262-264 | where two pages share a slot, an edit of one changes the other: tree shape is needed |
| `Resolve.ResolveUserExt` | ptedit.c:113-210 | for every paging definition the unrolled walk with folded levels and early returns computes what the recursive radix lookup finds, each folded level a copy of the present one above it |
| `Resolve.ResolveUpper` | ptedit.c:152-165 | its P4D part, folded or not |
| `Resolve.ResolveMiddle` | ptedit.c:167-179 | its PUD part, folded or not |
| `Resolve.ResolveLower` | ptedit.c:181-193 | its PMD part, folded or not |
| `Resolve.ResolvePt` | ptedit.c:195-209 | its page-table part, with the large-page test of x86 |
| `Resolve.ResolvedValid` | ptedit.c:150-202 | the result marks as valid exactly the levels the lookup read, and none if the root entry is not present |
| `Resolve.ResolvedEntry` | ptedit.c:150-202 | the result holds every entry the lookup read, in the field of its level |
| `Resolve.ResolvedRest` | ptedit.c:135-209 | a level that the definition has and the walk did not read is zero; a folded level is a copy of the level above it, for PUD and PMD only if that is present |
| `Resolve.ResolvedAsked` | ptedit.c:137-138 | the result has the process and the address that were asked for |
| `Resolve.EvenMeans` | ptedit.c:114-115 | the walk starts at the even address at or right below the stored root |
| `Resolve.ResolvedPte` | ptedit.c:195-205 | the PTE bit is set if and only if the walk reaches a page table, whether or not the entry there is present |
| `Resolve.ValidIsNotPresent` | ptedit.c:199-205 | there are tables for which a zero entry is reported as a valid PTE |
| `Update.UpdateFrame` | ptedit.c:262-276 | an update changes only slots of selected levels on the walk |
| `Update.UpdateWrites` | ptedit.c:262-276 | with distinct slots every selected level that the walk read gets its new value |
| `Update.OrdersAgree` | module/pteditor.c:364-392 | with distinct slots the bottom-up and the top-down order leave the same memory, for every mask |
| `Update.SlotFromFields` | ptedit.c:262-276 | the slot an update computes from the frame in the resolved upper field and from the address is the slot the walk read, at every valid level |
| `Update.ReadBack` | ptedit.c:237-279 | if the reported slots are distinct, the selected ones writable, and the selected upper entries still lead to the same table or to none, resolving after an update with any mask gives the whole old result with exactly the selected valid levels replaced and the folded levels copied from those |
| `Update.KeptLinksReadBack` | ptedit.c:237-279 | so it is if the selected upper entries keep present bit and frame, and on x86 the size bit |
| `Update.KeepsLinkMeans` | ptedit.h:303-318 | in bits: on x86 bits 0, 7 and 12 to 39 stay, on aarch64 bits 12 to 47 and whether bits 0 and 1 are both set; all other bits are free |
| `Update.ShapedIsDistinct` | ptedit.c:146-200 | in tree-shaped tables the slots on the walk of any address are distinct |
| `Kernel.ResolveVm` | module/pteditor.c:245-346 | the kernel walk keeps the pointers and valid bits of the radix lookup under the kernel's rules, and fails if and only if it finds no PTE |
| `Kernel.ResolveVmPud` | module/pteditor.c:286-292 | its PUD part |
| `Kernel.ResolveVmPmd` | module/pteditor.c:304-322 | its PMD and PTE part, with the leaf tests |
| `Agreement.DescendAlikeMeans` | module/pteditor.c:268-322 | level by level, the entries at which both walks stop or both go on: they differ at entries neither zero nor present, bad root flags and 1 GiB leaves |
| `Agreement.WalksAgree` | module/pteditor.c:268-322 | both walks read the same entries in the same slots if and only if that is so at every entry above the page table, and frames that are followed are below 2^28 |
| `Agreement.PathsAgree` | module/pteditor.c:268-322 | in particular if upper entries are zero or present, with frames below 2^28, no 1 GiB leaf and no bad root flag |
| `Agreement.GiantPage` | ptedit.c:177-183 | the library reads a PMD that the kernel does not if and only if the PUD is a present 1 GiB leaf |
| `Agreement.KeepFinds` | module/pteditor.c:268-322 | the kernel keeps the slot of a level and marks it valid unless a PUD or PMD is none |
| `Agreement.KernelRoot` | module/pteditor.c:407-431 | whatever the tables, the result of the kernel implementation has the root entry as a valid PGD; it is also the P4D, and valid as that, if and only if it is neither zero nor bad |
| `Agreement.KernelLevel` | module/pteditor.c:407-431 | at every other level that the kernel walk reads the result is valid and has that entry unless a PUD or PMD is zero |
| `Agreement.KernelNoLevel` | module/pteditor.c:407-431 | and a level that it does not read is not valid and zero |
| `Agreement.ResultsAgree` | module/pteditor.c:407-431 | both implementations return equal 64-bit entries at every level both mark valid |
| `Agreement.PteValidityAgrees` | module/pteditor.c:312-322 | they agree on whether there is a PTE |
| `Agreement.IsSameMeans` | demos/performance.c:37-55 | `is_same` holds if and only if each of the low 32 bits is in both words or in neither, at every level both mark valid |
| `Agreement.ResultsAreSame` | demos/performance.c:37-55 | the results of both implementations satisfy `is_same` |
| `Agreement.FoldedOrdersAgree` | module/pteditor.c:364-392 | from the same slots, with a folded P4D, both orders leave the same memory if and only if P4D is unselected or its value is what the library leaves in the PGD slot |
| `Agreement.KernelLeaves` | module/pteditor.c:364-392 | what the kernel's update from its own walk leaves in each slot of the walk |
| `Agreement.UpdatesAgree` | module/pteditor.c:349-404 | where the walks agree and slots are distinct, the two real updates leave the same memory if and only if, in every writable slot: at a present root P4D is unselected or equal to what the library leaves; at a root that is not present PGD is unselected or unchanged; a zero PUD or PMD is unselected or stays zero |
| `Example.ZeroRootDiffers` | module/pteditor.c:268-274 | a zero root entry with only PGD selected: the kernel writes, the library does not |
| `Example.ZeroPmdDiffers` | module/pteditor.c:304-310 | a zero PMD with only PMD selected: the library writes, the kernel does not |
| `Example.ZeroPmdExists` | module/pteditor.c:304-310 | concrete tables for that case |
| `Interchange.EditsAgree` | ptedit.c:519-549 | a PTE edit leaves the same memory under both implementations |
| `Interchange.RunsAgree` | ptedit.c:519-549 | so does every run of PTE edits |
| `Locks.StepKeeps` | module/pteditor.c:245-404 | every step of every request keeps the lock and work invariant |
| `Locks.RunKeeps` | module/pteditor.c:245-404 | so does every schedule |
| `Locks.MutualExclusion` | module/pteditor.c:261-346 | under every schedule no walk overlaps another request's writes, and a request past its unlock holds nothing |
| `Locks.WriterIsAlone` | module/pteditor.c:357-403 | while an update writes, every other request is before its lock or after its unlock |
| `Locks.UpdatesAreSerial` | module/pteditor.c:357-403 | when no update is writing, memory is that of the finished updates run atomically in unlock order |
| `Locks.ExitedUpdatesAreLogged` | module/pteditor.c:349-404 | under every schedule the log has exactly the update requests that have exited, each once, and no resolve request exits without a result |
| `Locks.EveryUpdateTakesEffect` | module/pteditor.c:349-404 | once all requests have finished, memory is what all update requests leave, each once and atomically, in some order |
| `Locks.ResolveIsSnapshot` | module/pteditor.c:436-446 | the pointers of a resolve are those of an atomic resolve after a prefix of the updates, and each word copied after the unlock is the snapshot's unless an update wrote its slot since |
| `Locks.UndisturbedResolve` | module/pteditor.c:436-446 | a finished resolve whose slots no update has written since its unlock returns the whole result of an atomic resolve after that prefix |
| `Locks.CopyFive` | module/pteditor.c:407-431 | on unchanged memory the five copies and the valid mask are `vm_to_user` |
| `Locks.ResolveSeesFinished` | module/pteditor.c:261-346 | a resolve that starts after some updates have finished has all of them in its prefix, and later ones are logged after them |
| `Locks.NoDeadlock` | module/pteditor.c:261-346 | in every reachable state with an unfinished request some request can make a step |
| `Locks.StepProgress` | module/pteditor.c:245-404 | every step that is made brings its request closer to its end |
| `Locks.StepDoesWork` | module/pteditor.c:245-404 | and so leaves less work in all: no run makes steps for ever |
| `Locks.CanFinish` | module/pteditor.c:434-453 | from every state of every run there is a schedule in which all requests finish |
| `Tlb.ProcessorAgrees` | ptedit.c:146-200 | the processor walks all pages like the library on aarch64, and on x86 if and only if there is no 1 GiB leaf and tables lie in frames below 2^28 |
| `Tlb.GoesOnOrMaps` | ptedit.c:146-209 | at a present entry the processor either goes on, exactly where section 4.5 of Intel SDM Volume 3A or a VMSAv8-64 table descriptor says so, or has its page, and at no other entry either |
| `Tlb.ProcessorSteps` | ptedit.c:650-661 | at any moment the processor can cache the translation of any mapped page, and has it from then on, and can drop any; nothing else changes |
| `Tlb.StepKeeps` | ptedit.c:262-292 | every step (fill, eviction, resolve, locate, write, flush) keeps coherence |
| `Tlb.RunIsCoherent` | module/pteditor.c:389-394 | in every run each cached translation agrees with a fresh walk of the processor unless its page is inside an update that has written and not yet flushed |
| `Tlb.NothingStaleAtRest` | ptedit.c:650-661 | once all updates have returned, no cached translation is stale |
| `Tlb.KernelFlushSuffices` | module/pteditor.c:190-206 | from an empty cache every run with the kernel's flush is coherent: on x86 for updates of any live process whose root no other has, on aarch64 for updates of pages the caller itself maps |
| `Tlb.FourSteps` | ptedit.c:899-936 | an update on its own is one edit of the page-table entry, and drops the page if there was an entry |
| `Tlb.MissedFlushLeavesStale` | module/pteditor.c:196-205 | an update whose flush leaves out an address space with the root it wrote leaves a stale translation there |
| `Tlb.ForeignFlushLeavesStale` | module/pteditor.c:196-205 | on aarch64 so does every update for a process other than the caller, or of a page the caller does not map |
| `Tlb.OneByOneIsCoherent` | ptedit.c:899-936 | any number of updates one after the other that invalidate where they write leave no stale translation |
| `Tlb.AnyUpdateIsLocal` | ptedit.c:262-278 | after an update of any levels from a coherent state at rest the given page is not cached where it was flushed, and a cached translation can be stale only if its walk reads a changed word |
| `Tlb.ClearedEntryLeavesStale` | ptedit.c:262-278 | and it is stale if an entry on its walk, at whatever level, was cleared |
| `Example.NeighbourIsStale` | ptedit.c:265-278 | clearing the PMD of the first page and flushing that page leaves the second page stale |
| `Example.WordsLeadToPmd` | ptedit.c:265-278 | concrete tables for that case |
| `Interleaving.WritesAreSequential` | ptedit.c:899-936 | in any interleaving of edits of different pages memory is at every moment that of a sequential run of the updates that have written, in write order, each once |
| `Interleaving.SequentialInAnyOrder` | ptedit.c:899-936 | that run leaves the same memory in every order |
| `Interleaving.NothingIsLost` | ptedit.c:899-936 | so once all have returned, memory is that of the sequential run in any order |
| `Interleaving.TwoEdits` | ptedit.c:899-936 | two concurrent edits of one page that has an entry leave the memory of one of the two orders, in every complete interleaving, if and only if each edit on its own gives the entry that the two give in one of the orders |
| `Interleaving.SafeBits` | ptedit.c:899-905 | for two set-bit calls: if and only if the bits are the same or both set already |
| `Interleaving.NoEntryNoEffect` | ptedit.c:899-936 | updates of pages without a writable entry change nothing in any interleaving |
| `Interleaving.LostUpdate` | ptedit.c:899-905 | two edits of one page that both resolve before either writes leave the memory of the second alone |
| `Interleaving.LostBit` | ptedit.c:899-905 | so a bit set by the first is missing, unlike after a sequential run |
| `CachedRoot.SetRootIsReported` | ptedit.c:616-647 | a root set for a known process is reported for it, and user-space walks of any pid but 0 start there; other address spaces keep their roots, and pid 0 its stored root |
| `CachedRoot.SetRootOfNobody` | module/pteditor.c:541-542 | a root set for an unknown process changes nothing |
| `CachedRoot.CachedIsRootAtSelection` | ptedit.c:519-549 | in every run the stored root is the caller's kernel root at the last selection of a user-space implementation |
| `CachedRoot.RootStays` | module/pteditor.c:535-555 | the caller's root is unchanged by calls that do not set it to something else |
| `CachedRoot.OwnPidCoincides` | ptedit.c:114-115 | walks for pid 0 and for the caller's pid start at the same root if and only if the kernel root is what it was at the selection, so always without a later change |
| `MemMap.EntryMember` | demos/memmap.c:81-108 | a page is listed for an entry if and only if it is in the entry's range and a walk finds it |
| `MemMap.ListMember` | demos/memmap.c:61-112 | the same for a run of entries of a table at any level |
| `MemMap.ListOrder` | demos/memmap.c:61-112 | listed pages ascend strictly, stay in range, and their sizes fit into it |
| `MemMap.UsageCounts` | demos/memmap.c:101-106 | the total is 4096 times the small pages plus 2 MiB times the large ones |
| `MemMap.DumpPt` | demos/memmap.c:91-102 | the loop over a page table lists it and adds up its pages |
| `MemMap.DumpPd` | demos/memmap.c:80-108 | the loop over a page directory, with large pages |
| `MemMap.DumpPdpt` | demos/memmap.c:69-110 | the loop over a page-directory-pointer table |
| `MemMap.DumpPml4` | demos/memmap.c:61-112 | the loop over the root table |
| `MemMap.Dump` | demos/memmap.c:55-112 | the four loops emit the listing of the lower half, and `mem_usage` is its total |
| `MemMap.DumpPathAgrees` | demos/memmap.c:69-90 | the dump follows the library's walk if and only if all tables on it lie in frames below 2^28 |
| `MemMap.DumpIsExact` | demos/memmap.c:60-112 | a page is listed if and only if it is in the lower half and the library's walk ends in a present 4 KiB PTE or 2 MiB PMD; the order is strict and the total at most 2^47 |
| `MemoryTypes.SlotMeans` | ptedit.c:700-707 | slot i is the number in the low three bits (x86) or all bits (aarch64) of byte i of the register |
| `MemoryTypes.NibblesMean` | ptedit.c:795-796 | the halves of a byte are the numbers in its low and high four bits |
| `MemoryTypes.HoldsMeans` | ptedit.c:783-805 | a slot holds a type if and only if its three bits spell it (x86), or its byte or both halves of its byte do (aarch64) |
| `MemoryTypes.FindMt` | ptedit.c:783-805 | the bitmask has exactly the slots that hold the type |
| `MemoryTypes.Ffs` | ptedit.c:811 | one plus the lowest set bit of a byte, or zero if there is none |
| `MemoryTypes.FindFirstMt` | ptedit.c:809-821 | the least slot of the type, or -1 if and only if there is none |
| `MemoryTypes.AppliedTypeIsRead` | ptedit.c:700-707 | for every register, type and entry, the found slot applied and extracted selects the type, and is the slot the processor uses; on aarch64 the byte is the type or the type in both halves |
| `MemoryTypes.ProcessorUsesSlot` | ptedit.c:825-868 | the slot that PAT, PCD and PWT select (section 11.12 of Intel SDM Volume 3A), or the attribute index on aarch64, is the slot that was applied, and the one that is extracted |
| `MemoryTypes.ReadPatExact` | module/pteditor.c:574-579 | reading through signed halves is exact if and only if bit 31 is clear or the upper half is all ones |
| `MemoryTypes.ClearMaskExact` | ptedit.c:772-776 | the converted mask is the intended one if and only if the field ends below bit 31: slots 0 to 3 with the 3 bits of x86, slots 0 to 2 with the 8 bits of aarch64 |
| `MemoryTypes.SetMtIsExact` | ptedit.c:770-779 | from a legal register, slots 0 to 3 are written alone, and the register stays legal and is read back exactly |
| `MemoryTypes.DecodeAfterSet` | ptedit.c:770-779 | seen as eight slots, such a write is an update of one slot |
| `MemoryTypes.RunSetsRefines` | ptedit.c:770-779 | so every run of such writes is a run of array updates, with all reserved bits zero throughout |
| `MemoryTypes.HighSlotsGoWrong` | README.md:418-425 | for slots 4 to 7 the value is or-ed onto the old one and the slot four places lower is cleared |
| `MemoryTypes.SetMtAsDocumented` | README.md:418-425 | on x86 the documented write happens if and only if the slot is below 4, or its old bits are in the new value and the slot four places lower is zero |
| `MemoryTypes.ArmSetMtAsDocumented` | README.md:418-425 | on aarch64 if and only if the slot is below 3, or what its mask clears besides is zero (slots 4 to 7 for slot 3, the slot four places lower for slots 4 to 6, slots 3 to 6 for slot 7) and what it does not clear is put back |
| `Translation.SmallIsCorrect` | demos/virt2phys.c:35-38 | in a 4 KiB page the computed address is that of section 4.5 of Intel SDM Volume 3A, for every address |
| `Translation.LargeIsCorrect` | demos/virt2phys.c:39-43 | in a 2 MiB page it is so for an address if and only if bits 12 to 20 of the entry are all set in the address |
| `Translation.LargeIsCorrectEverywhere` | demos/virt2phys.c:39-43 | and for all addresses of the page if and only if those bits are clear |
| `Translation.HugeTypeKeepsTranslation` | ptedit.c:839-850 | applying a memory type to a huge page keeps this if and only if the index leaves bit 12 clear |
| `Translation.SmallIsContiguous` | demos/virt2phys.c:38 | addresses of one 4 KiB page are as far apart as their images |
| `Translation.LargeIsContiguous` | demos/virt2phys.c:42 | so are those of one 2 MiB page whose entry has bits 12 to 20 clear |
| `Translation.PhysUsesTheLeaf` | demos/virt2phys.c:33-43 | where the walk of an address ends in a present leaf, the computation on the resolved entries yields the SDM address of that leaf: always for 4 KiB, for 2 MiB if and only if bits 12 to 20 of the entry are all set in the address |
| `Translation.ProcessorUsesTheLeaf` | demos/virt2phys.c:33-43 | where the processor reads upper entries as the library does, it translates an address if and only if the library's walk ends in a present leaf, and uses that leaf |
| `Translation.ShiftOrAssembles` | demos/memmap.c:97 | for indices in their own bits, the or of the shifted indices is the sum that reassembles the address |
| `Translation.PrintedAddress` | demos/memmap.c:97-105 | the printed expression on x86 is that address, for both page sizes |
| `Library.Ptedit.constructor` | ptedit.c:427-500 | the kernel implementation is selected and no root is stored; with 16 KiB pages a user-space one, with the caller's root |
| `Library.Ptedit.UseImplementation` | ptedit.c:519-549 | selecting a user-space implementation stores the caller's root; an unknown number changes nothing |
| `Library.Ptedit.SameRoots` | ptedit.c:114-115 | the roots the object reports and walks are those of the machine of selections and root changes, for every process |
| `Library.Ptedit.OwnTables` | ptedit.c:114-115 | what is resolved or written for a process other than pid 0 is resolved or written in the tables of that process, whatever is stored, under every implementation |
| `Library.Ptedit.StoredTables` | ptedit.c:239-240 | for pid 0 user-space implementations resolve and write below the stored root |
| `Library.Ptedit.ReportedRoot` | module/pteditor.c:502-533 | the root reported for a process is its own; without a process or a root it is zero on x86, and on aarch64 the root register without its lowest bit |
| `Library.Ptedit.PageMeans` | ptedit.c:459-498 | a page is the address without its offset, modulo 2^48, 2^58 or 2^39 in the three paging definitions |
| `Library.Ptedit.SetPagingRoot` | ptedit.c:633-647 | changes the kernel root of a known process, which is then reported for it and walked for it; never another root, and never the stored one |
| `Library.Ptedit.FullSerializingBarrier` | ptedit.c:871-895 | sets the caller's root to what it is |
| `Library.Ptedit.InvalidateTlbPid` | module/pteditor.c:190-206 | a cached translation stays, with its value, if and only if it is not one of this page: on x86 in the address space of this process, on aarch64 in that of a caller that maps the page |
| `Library.Ptedit.Resolve` | ptedit.c:56-67 | what the selected implementation resolves, an empty result for an unknown process |
| `Library.FoldedLevelStays` | ptedit.c:265-276 | an update never writes a level that the definition folds, whatever was resolved |
| `Library.Ptedit.UpdateUserExt` | ptedit.c:237-279 | on both architectures and for every paging definition the five guarded writes leave the memory of the bottom-up specification, and the page is flushed unless there is no root |
| `Library.Ptedit.UpdateVm` | module/pteditor.c:349-404 | the five guarded stores leave the memory of the top-down specification, and the page is flushed |
| `Library.Ptedit.Update` | ptedit.c:282-292 | under either implementation memory is as specified, and only the given page is flushed, whatever the mask |
| `Library.Ptedit.ResolveFindsPte` | ptedit.c:199-202 | resolving marks a PTE valid if and only if the walk of the selected implementation finds one, and returns its word |
| `Library.Ptedit.UpdateWritesPte` | ptedit.c:262-264 | an update of the PTE alone writes its slot, or nothing |
| `Library.Ptedit.StorePte` | ptedit.c:282-292 | the same for the call, with its flush |
| `Library.Ptedit.PteSetBit` | ptedit.c:899-905 | memory changes by exactly the edit that the run theorems speak of, and the page is flushed if there was an entry |
| `Library.Ptedit.PteClearBit` | ptedit.c:908-914 | the same for clearing a bit |
| `Library.Ptedit.PteSetPfn` | ptedit.c:930-936 | the same for the frame number |
| `Library.Ptedit.PteGetBit` | ptedit.c:917-920 | true if and only if there is a page-table entry and it has the bit |
| `Library.Ptedit.PteGetPfn` | ptedit.c:923-927 | the frame number of the entry, or zero without one |
| `Library.Ptedit.Call` | ptedit.c:899-936 | each of the three calls is its edit of the page-table entry, and its flush |
| `Library.Ptedit.CallAll` | ptedit.c:899-936 | any sequence of calls on any addresses and processes leaves the memory of the run that the refinement theorems speak of, and memory and cache of the updates that the coherence theorems speak of |
| `Library.Ptedit.CallsAreCoherent` | ptedit.c:899-936 | so from a coherent cache no translation is stale after any sequence of calls that invalidate where they write |
| `Library.Ptedit.UpdateIsLocal` | ptedit.c:282-292 | after an update with any mask, under either implementation, its page is not cached where it was flushed, and a cached translation is stale only if its walk reads a changed word |
| `Library.Ptedit.CallIsFourSteps` | ptedit.c:899-936 | one call leaves the memory and the cache that the four steps of an update leave in the TLB machine |

## Left out

- Windows: the driver, the loader and the Windows branches of the library.
- ptedit_header.h, which is generated from module/pteditor.h, ptedit.h and ptedit.c.
- Transport: opening the device, ioctl, mmap, pread and copying between kernel and user memory; the memory map stands for them.
- Output: printing of entries, colours and `ptedit_mt_to_string`.
- Inline assembly, memory barriers, timing, and what `set_pgd` does under page-table isolation.
- VM_LOCK and VM_UNLOCK: the lock machine is for requests made while they are not in use.
- Tlb.KernelFlushSuffices: the roots of the address spaces stay as they are during a run.
- The kernel walk on aarch64, where entry tests and folding differ: calls under the kernel implementation are for x86 with four levels.
- How memory is reached on aarch64, where the library does not open /proc/umem: the memory map holds whatever words can be read and written.
- Reading and writing whole pages, page-size queries, and switching the TLB invalidation mode.
- Locks.MutualExclusion: page-table changes by the rest of the kernel are not steps of the machine, and requests for a missing process, which take no lock, are not in it.
- Tlb.RunIsCoherent: speaks of updates of page-table entries, and on aarch64 of 4 KiB pages; updates with upper levels are not steps of the machine; `Tlb.AnyUpdateIsLocal` says what one of them leaves behind.
- Library.Ptedit.UpdateVm: see the kernel walk on aarch64.
- Library.Ptedit.PteSetBit: bit numbers outside 0 to 63, for which the shift is undefined in C, are not modelled.
- Resolve.ResolveUserExt: one method in the source, here five, one for each part of the walk.
- Update.ReadBack: words at overlapping misaligned addresses count as different words, and `root + index * 8` does not wrap around at 2^64.
- MemMap.Dump: the root page and the tables that the entries it visits name must be readable, since after a failed page read the loops would go on with the old buffer; each nested loop is a method of its own, and items hold the sum that `Translation.PrintedAddress` proves equal to the printed expression.
- MemoryTypes.SetMtAsDocumented: for slots 4 to 7 the C shift is undefined; the model takes the count modulo 32, as the instructions of both architectures do.
