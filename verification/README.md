# PTEditor: a model of the page-table walker and editor

PTEditor resolves and edits the page-table entries of a process. Its only data is physical memory, and the words it
edits are the words that decide where its next read or write lands. This project models that code in Dafny and proves
what its edits do to the walks that found them, to the walks of other addresses, to the TLB, and to concurrent callers
of the kernel module. Physical memory is a total map from addresses to 64-bit words; every 64-bit entry is a bit vector.

| file | what it models |
|---|---|
| Words.dfy | 64-bit entries: single bits, present/size/frame fields, and the frame-number and memory-type lenses |
| Radix.dfy, Paging.dfy | the paging definitions, and how an address splits into indices and is rebuilt from them |
| Walk.dfy | the walk as a recursion over the levels that exist, its description, and the resolved entry |
| Stores.dfy | the stores of an update in the user-space order (bottom-up) and in the kernel's (top-down) |
| Unrolled.dfy, Editor.dfy | the class `PtEditor` with the unrolled code of ptedit.c, proved against the recursion |
| Edits.dfy, PteEdits.dfy | what updates, multi-level bit edits, PTE edits and remapping do |
| Tree.dfy, Frames.dfy, SelfMap.dfy | tree-shaped tables and their slots; which edits leave which walks alone, exactly and on tree-shaped tables; a table on which an edit reaches another page |
| Ladder.dfy | one chain of tables, on which every bit that the walk looks at is shown to matter; it is tree-shaped |
| Tlb.dfy | every interleaving of PTE edits with TLB fills, evictions and other stores: the TLB, and the memory that results |
| Coherence.dfy | when the cached walks of such a run stay right on any tables |
| MapPt.dfy | the second route to a PTE edit, through a mapping of its page table |
| Kernel.dfy, KernelModule.dfy | the kernel's walker and updater, and the class `Device` with the calls of the module |
| KernelEdits.dfy | what the kernel's updater leaves of an edited entry, next to the user-space one |
| KernelLevels.dfy | when the kernel marks the same levels valid as the user-space walk on x86 |
| Locks.dfy | every interleaving of the module's calls under the semaphores of the address spaces |
| LockRuns.dfy, TornWalk.dfy | which locked walks are snapshots, a run with a walk that is none, and calls that run alone |
| Memmap.dfy, Enumerator.dfy | the enumeration of a whole address space by four nested loops |
| MemoryTypes.dfy | finding a memory-type slot and applying it to a page |

Terms used below. A *slot* is the physical address of one entry. A *trace* is the sequence of steps (level, slot, word)
that a resolve marks valid. `d.Consistent()` says that missing levels have no index bits and that a table fits a page;
the three configurations of `ptedit_init` are consistent. `TreeShaped` says that every table the walk can reach is
aligned and is reached by one index prefix only; `Ladder` gives such tables. `PteApart` says that an address's PTE does
not lie in one of the tables above it, and `DistinctSlots` that no two steps of a trace share a slot; both follow from
`TreeShaped`. `NarrowFrame` says that x86 entry bits 40 to 51 are clear, where `ptedit_get_pfn` reads 40 frame bits and
the `pfn` bit-field 28. Two words of a level are `Alike` when the walk does the same at both: at the PTE always, above
it when both stop it or both lead to the same table (and, at the PGD, are present alike); the size bit counts in the
last table above the PTEs only. `SafeBit` says that a bit edit leaves every affected entry alike.

Some promises hold only under a condition. The model states it exactly, except where it says that it is sufficient:

- a frame number set with `ptedit_set_pfn` reads back if and only if it fits the field, and setting the old one back
  restores the entry if and only if the unmasked number did not spill;
- on any tables, a PTE edit leaves the walk of another address alone if and only if it does not change the PTE or that
  walk does not read its slot; a whole update does if and only if it rewrites the words of that walk. The resolved
  entry is left alone in those cases and, if there was none, when the PGD entry stays not present. On tree-shaped
  tables these conditions follow from the pages and indices; `SelfMap` shows a directory on which they fail;
- on any tables, the cached walks stay right all along a run if and only if every store misses them, except that the
  store of an edit may hit those of its own page; on tree-shaped tables every edit meets this;
- whatever stores lie between two memories, an address is walked through the same slots in both if and only if its
  entries are alike. So a multi-level bit edit keeps its own walk if and only if the bit is safe, and a bit can be
  edited in a level above the PTEs under every walk if and only if it is no present or frame bit and, in the last
  table, not the size bit;
- the two store orders agree if and only if coinciding slots carry equal end values, and the two walkers agree if and
  only if the entries both follow are narrow. Any two updates agree if and only if, at every address, the last level the
  kernel selects carries the word of the first level the other selects, or the word already there where only one does;
- on x86 with four levels both walkers mark the same existing levels valid if and only if the entries meet the
  conditions of `LevelsAgreeExactly`: the kernel stops at an entry that is none or bad and at a large PUD, where the
  user-space walk goes on;
- a level's edit survives the kernel's updater if and only if no accepted level nearer the page is stored to its slot.
  On distinct slots that is if and only if no accepted missing level follows it, and the multi-level edits of both
  implementations agree if and only if every affected level survives or is not changed;
- a locked walk is the walk of one memory state of the run unless an update of another address space changes a slot
  between the walk's read of it and its last read. This condition is sufficient only: a change that the macros do not
  tell apart is harmless too. A run of two address spaces that share a table shows that the walk may otherwise be that
  of no memory of the run;
- concurrent edits leave what the calls leave one after the other, all along a run, if and only if every store is of
  the edit of the PTE as it is then. It is so when no two threads are between the resolve and the store of an edit of
  one page; two edits that overlap there lose the first one, and agree with an order of the calls if and only if that
  order gives the PTE the same word.

Where the code and its documentation differ, the model follows the code. ptedit.h:228-230 promises that an update
flushes the TLB for its address. `ptedit_update_user_ext` returns before its flush when there is no root (the wrapper
flushes anyway), the kernel flushes the current process whichever process was edited, and demos/map_pt.c resets the
entry without a flush after an access has cached the remapped walk. The header describes a set of valid levels; the
code marks the PGD valid only when it is present and every lower level as soon as it is read, and the model does the
same. ptedit.h:259-278 promises that a multi-level edit reaches the affected levels; through the kernel module, on x86
without a P4D level, an edit of the PGD is lost, because the unedited P4D field is stored over it.

## Model

| member | source | states |
|---|---|---|
| Words.EditsOneBit | ptedit.c:876-891 | setting or clearing a bit of any 64-bit entry changes that bit and no other |
| Words.BitIsShifted | ptedit.c:876-891 | bit `bit` of a 64-bit entry, for every position, is the one that a right shift by `bit` brings to the bottom |
| Words.EditedBit | ptedit.c:876-891 | in those terms, which bits an entry has after one is set or cleared |
| Words.BitEditsUndo | ptedit.c:876-891 | clearing undoes setting exactly when the bit was clear, and the other way round |
| Words.FieldsAreLaidOut | ptedit.h:318-334 | the fields the walk reads, as C lays them out: `present`, `size` and `pfn` are these bits of the word (on ARM two present bits, 36 frame bits and no size bit) |
| Words.PfnIsLaidOut | ptedit.c:314-320 | the frame number is the 40 bits (36 on ARM) from bit 12 on |
| Words.SetPfnBits | ptedit.c:302-311 | every bit of an entry whose frame number is set: the number's in the field, around it the entry's or one that the number spills |
| Words.SetPfnReadsBack | ptedit.c:302-320 | `get_pfn` of `set_pfn` is the number set if and only if the number fits the field |
| Words.FittingPfnDoesNotSpill | ptedit.c:302-311 | a number that fits the field spills into no other bit |
| Words.SetPfnKeepsOtherBits | ptedit.c:302-311 | the bits around the frame field survive if and only if the unmasked number spills into none of them |
| Words.SetPfnRestores | ptedit.c:302-320 | setting the old number back restores the entry if and only if the first number did not spill |
| Words.PfnReadersAgree | ptedit.h:331 | the `pfn` bit-field and `ptedit_get_pfn` read the same number if and only if bits 40 to 51 are clear |
| Words.ApplyMtReadsBack | ptedit.c:802-845 | an applied memory type, 4 KB or large, reads back as its low three bits |
| Words.ApplyMtBits | ptedit.c:802-827 | every bit of an entry to which a type is applied: the type's bits land in PWT, PCD and PAT (bit 7, or 12 for a large page), on ARM in bits 2 to 4, and every other bit stays |
| Words.ExtractMtBits | ptedit.c:830-850 | the type read from an entry is made of these bits |
| Words.ApplyMtKeepsOtherBits | ptedit.c:802-827 | applying a memory type changes only the bits that hold it |
| Paging.RealDefinitionsAreConsistent | ptedit.c:451-489 | the three real configurations meet the conditions the theorems ask of a definition |
| Paging.RealIndices | ptedit.c:451-489 | the three configurations in numbers: their levels, page sizes, and the index of an address at every level |
| Paging.RebuildOfIndices | demos/memmap.c:96-99 | OR-ing the indices of an address back at their shifts gives the address with its page offset and its unused high bits cleared, for every definition |
| Paging.RebuildIsSum | demos/memmap.c:96-99 | in-range indices share no bits at their shifts: the OR of them is their sum |
| Paging.IndicesOfRebuild | ptedit.c:115-129 | any in-range index tuple, with any offset, is the index tuple of the address its OR gives |
| Paging.SameIndicesSamePage | ptedit.c:115-129 | index tuples correspond one-to-one with virtual pages, for every definition |
| Paging.WalkedIndicesNamePages | ptedit.c:115-129 | so do the indices of the levels the walk reads |
| Walk.StepsIsWalk | ptedit.c:142-204 | every step of the recursive walk reads the right slot of the table its parent names, and the walk stops at the first entry that does not lead on |
| Walk.SlotWraps | ptedit.c:142 | the address of an entry is the table plus eight bytes per index, wrapped at 2^64 |
| Walk.RootBaseIsEven | ptedit.c:111 | the root is followed with its lowest bit cleared |
| Walk.WalkIsUnique | ptedit.c:142-204 | that description determines the walk |
| Walk.TraceIsWalk | ptedit.c:137-147 | the valid levels are a root-first prefix of the existing ones; none are valid exactly without a root or without a present PGD entry |
| Walk.ResolveShowsMemory | ptedit.c:137-205 | each valid field is the memory word at the slot its step reached |
| Unrolled.MissingFieldFolds | ptedit.c:154-186 | the field of a missing level shows the entry above it, or 0 where that is not present |
| Unrolled.UnreadFieldIsZero | ptedit.c:132-138 | the field of an existing level that is not valid is 0 |
| Walk.TraceReread | ptedit.c:142-204 | a memory that differs only where the walk does not look is walked through the same slots |
| Walk.SameSlotsIffAlike | ptedit.c:142-204 | whatever stores lie between two memories, an address is walked through the same slots, with the PGD valid in both or in neither, if and only if every entry of its walk is alike in both |
| Ladder.HarmlessIsExact | ptedit.c:142-204 | a bit of a level can be set and cleared under every walk without moving it if and only if the level is the PTE, or the bit is neither present nor frame bit nor, in the last table above the PTEs, the size bit |
| Editor.PtEditor.constructor | ptedit.c:520-530 | the paging root is the one the module answers for the own process |
| Editor.PtEditor.UseImplementation | ptedit.c:520-530 | selecting a user-space implementation again latches the root of the own process again, and of no other |
| Editor.PtEditor.ResolveUser | ptedit.c:109-206 | the flat five-level code returns exactly the entry of the recursive walk, for every memory and definition: from the latched root for the own process, from the answered one for another, from 0 for an unknown one |
| Editor.PtEditor.ResolveBelowPud | ptedit.c:177-205 | its lower half, from a present PUD entry on |
| Editor.PtEditor.StoreLevels | ptedit.c:258-272 | the five guarded stores, through the fields resolved before them, leave the memory of the bottom-up store sequence |
| Editor.PtEditor.UpdateUserExt | ptedit.c:233-275 | the whole update: memory, and the flushed page unless there is no root |
| Editor.PtEditor.UpdateUser | ptedit.c:278-288 | the update with its second flush |
| Editor.PtEditor.InvalidateTlb | ptedit.c:643-651 | the page of the address, and no other, leaves the TLB |
| Editor.PtEditor.Access | demos/map_pt.c:57-58 | a memory access caches the current walk of its page, and no other, unless the page is cached |
| Editor.PtEditor.SetBitAt | ptedit.c:893-919 | memory is that of updating the entry edited at exactly the affected levels |
| Editor.PtEditor.ClearBitAt | ptedit.c:921-947 | the same for clearing |
| Editor.PtEditor.PteSetBit | ptedit.c:876-882 | one edited PTE, or nothing without a valid PTE; and the flush |
| Editor.PtEditor.PteClearBit | ptedit.c:885-891 | the same for clearing |
| Editor.PtEditor.PteSetPfn | ptedit.c:963-969 | the same for a frame number |
| Editor.PtEditor.PteGetBit | ptedit.c:950-953 | the bit of the PTE, false without a valid PTE |
| Editor.PtEditor.PteGetPfn | ptedit.c:956-960 | the frame number of the PTE, 0 without a valid PTE |
| Stores.StoreUpAt | ptedit.c:258-272 | every word after bottom-up stores: where slots coincide, the level nearest the root wins |
| Stores.StoreDownAt | module/pteditor.c:384-410 | every word after top-down stores: where slots coincide, the level nearest the page wins |
| Stores.OrdersAgree | module/pteditor.c:384-410 | the two store orders end in the same memory if and only if no coinciding slots carry different end values |
| Stores.UpdateLands | ptedit.c:258-272 | on distinct slots each selected level receives its value and no other word changes |
| Edits.UpdatedLands | ptedit.c:233-272 | the same for a whole update, at the levels the caller selects (the PGD only where the definition has one); its slots are found through the old parents even where it replaces them |
| Edits.WriteBackIsIdentity | test/tests.c:158-178 | writing a resolved entry back under any mask leaves all of memory alone, on any memory, self-referential tables included |
| Edits.TraceAfterUpdate | ptedit.c:233-275 | after an update that keeps the fields the walk reads, the same slots are walked and hold the new words |
| Edits.LevelsEditLands | ptedit.c:893-947 | on distinct slots, a multi-level edit edits the words of exactly the walked levels that the caller asks for (the PGD only where the definition has one), and no other word |
| Edits.SafeBitIsExact | ptedit.c:893-947 | a multi-level bit edit keeps the slots of its own walk, and whether its PGD is valid, if and only if the bit is safe for the words it edits |
| Edits.HarmlessBitIsSafe | ptedit.c:893-947 | a bit that is no present or frame bit is safe at every level, except the x86 size bit in the last table above the PTEs |
| Edits.BitEditResolves | ptedit.c:893-947 | after a multi-level edit of a safe bit, resolve returns the same valid levels, the bit set (cleared) at exactly the valid levels the caller asked for, and every other bit as before |
| Edits.ClearUndoesSet | ptedit.c:893-947 | for a safe bit, `clear_bit` after `set_bit` restores all of memory if and only if the bit was clear at every valid level asked for |
| PteEdits.PteEditedIsOneStore | ptedit.c:876-891 | a PTE edit is one store of the edited word at the PTE's slot, whichever slots coincide |
| PteEdits.ResolveAfterPteStore | ptedit.c:233-275 | after a store to its own PTE, an address resolves to the same entry with the stored PTE |
| PteEdits.PteBitReadsBack | ptedit.c:876-891 | a set (cleared) PTE bit reads back so, and nothing else of the entry changes |
| PteEdits.SamePageSameWalk | test/tests.c:140-151 | resolving depends on the page of an address only, not on its offset |
| PteEdits.TranslationIsExact | demos/virt2phys.c:38 | a translation has the frame number of the PTE above the 12 offset bits of the address |
| PteEdits.PhysicalIsExact | demos/virt2phys.c:38 | for every page size, the bytes of a page are translated in place, from the first byte of the frame on |
| PteEdits.RemapTranslates | test/tests.c:234-248 | after a's frame number is set to b's, every byte of a's page translates to the address of that byte of b's page, in any memory where a's PTE is apart: with the tests' 4096-byte offsets and with the definition's page size |
| PteEdits.RemapRestores | test/tests.c:234-248 | setting the original number back restores all of memory if and only if the first number did not spill |
| MapPt.TwoRoutesOneEdit | demos/map_pt.c:36-55 | with 4 KB pages, editing the mapped word of the page table changes all of memory as the PTE edit of the address does |
| MapPt.LargePagesMiss | demos/map_pt.c:36-43 | with 16 KB pages the mapped word is the PTE if and only if the frame number is 0 and the two indices agree, or it is 1 and they differ by 1536 |
| MapPt.RemapShows | demos/map_pt.c:53-58 | the remapped address resolves differently if and only if the new frame number changes its PTE |
| MapPt.RemapThroughMapping | demos/map_pt.c:30-65 | the demo: the check succeeds, the remapping is the PTE edit, the reset restores all of memory, and the walk that the access cached stays, stale if and only if the remapping changed the PTE |
| Tree.SlotIsInjective | ptedit.c:142-198 | slots of aligned tables coincide only in the same entry of the same table |
| Tree.SameSlotSamePrefix | ptedit.c:142-198 | two (address, level) pairs reach the same slot if and only if they share the level and the index prefix |
| Frames.WalkSlotsAreDistinct | ptedit.c:142-198 | on tree-shaped tables no walk reads a slot twice |
| Frames.UpdateFramesExactly | ptedit.c:233-275 | on any tables, an update of `a` leaves the walk of `b` alone if and only if, at each slot of b's walk that it writes, the selected level nearest the root carries the word already there |
| Frames.PteEditFramesExactly | ptedit.c:876-891 | on any tables, a PTE edit of `a` leaves the walk of `b` alone if and only if it does not change the PTE or b's walk does not read its slot |
| Frames.SameEntryIffSameWords | ptedit.c:137-205 | an address resolves to the same entry in two memories if and only if they hold the same words along its walk, or it resolves to nothing and its PGD entry stays not present |
| Frames.UpdateKeepsEntryExactly | ptedit.c:233-275 | on any tables, an update of `a` leaves what `b` resolves to alone if and only if it rewrites the words of its walk, or there was nothing and no present PGD entry is stored |
| Frames.PteEditKeepsEntryExactly | ptedit.c:876-891 | on any tables, a PTE edit of `a` leaves what `b` resolves to alone if and only if it does not change the PTE, b's walk does not read its slot, or there was nothing and the edited word is not present |
| Frames.UpdateFrames | ptedit.c:233-275 | on tree-shaped tables an update leaves the walk of every address alone whose indices differ at the highest stored level or nearer the root |
| Frames.PteEditFrames | ptedit.c:876-891 | on tree-shaped tables a PTE edit leaves the walk of every address on another page alone |
| Frames.RemapSharesPage | test/tests.c:234-248 | on tree-shaped tables, after a's frame number is set to b's, every byte of both pages translates to the address that byte of b's page had before |
| Frames.PteStoreKeepsTree | ptedit.c:258-260 | a store to a PTE keeps the tables tree-shaped, with the same table at every index prefix |
| Frames.BitEditKeepsTree | ptedit.c:893-947 | so does a multi-level edit of a safe bit |
| Ladder.ChainIsTree | ptedit.c:142-204 | there are tree-shaped tables with a valid PTE, for every consistent definition with pages of at most 16 KB, the real ones included |
| SelfMap.EditReachesOtherPage | ptedit.c:885-891 | on every table whose first entry maps the root, a PTE edit of one page ends the walk of the next page |
| Tlb.ActionKeeps | ptedit.c:258-281 | every step of an edit and of the CPU, other stores staying outside the tables, keeps: tree-shaped tables, right slots in flight, and a current cached walk for every page without a pending flush |
| Tlb.RunsAreCoherent | ptedit.h:228-230 | so in every state of every run |
| Tlb.NoneStaleAfterReturn | ptedit.h:228-230 | a cached walk of a page is never stale once its edits have flushed |
| Tlb.StoreMakesStale | ptedit.c:258-274 | between store and flush it is stale if and only if the stored word differs from the old one |
| Tlb.EditAlone | ptedit.c:876-891 | an edit that runs alone through these steps does what the class methods do |
| Tlb.BothFlushesDrop | ptedit.c:258-281 | on every tree-shaped memory, in the run of an edit with walks of the CPU before it and between its flushes, the cached walk is stale after the store if and only if the PTE changed, and each flush drops it |
| Tlb.SerialExactly | ptedit.c:876-891 | in every run, memory is all along that of the data stores and whole edit calls made one after the other, each call where its store is, if and only if every store is of the edit of the PTE as it is then |
| Tlb.RunsAreSerial | ptedit.c:876-891 | so it is in every run in which no two threads are between the resolve and the store of an edit of one page |
| Tlb.OverlappingEditIsLost | ptedit.c:876-891 | on every tree-shaped memory two edits of one page can overlap so that memory is that of the second alone; it is that of the two calls in either order if and only if that order gives the PTE the same word |
| Coherence.ActionAgreesExactly | ptedit.c:258-281 | on any tables, a step keeps every cached walk right, but for pending flushes, if and only if its store, to an entry or not, misses the cached walks, except that an edit may hit those of its own page |
| Coherence.RunsAgreeExactly | ptedit.h:228-230 | so in every run, all along it |
| Coherence.TreesSpare | ptedit.h:228-230 | on tree-shaped tables every step of an edit meets that condition |
| Kernel.WalkersAgree | module/pteditor.c:290-340 | whatever the kernel's macros accept, every level valid for both walkers has the same slot if and only if the entries both follow are narrow |
| Kernel.SameWordsWhereBothValid | module/pteditor.c:290-340 | and then both show the same word there |
| Kernel.KernelValidIsPrefix | module/pteditor.c:290-340 | the kernel's valid levels are a root-first prefix of all five |
| Kernel.KernelValidExactly | module/pteditor.c:290-340 | the levels the kernel marks valid, in terms of its macros and the words along its path alone: which of none, bad and large is asked of which entry, the large PUD and the large PMD included |
| Kernel.UpdatersAgree | module/pteditor.c:367-421 | where both select the same levels, the kernel's update leaves the user-space one's memory if and only if coinciding slots carry equal end values, so always on distinct slots |
| KernelEdits.UpdatersAgreeExactly | module/pteditor.c:367-421 | without any hypothesis, for every entry: if and only if, at every address, the last level the kernel selects carries the word of the first level the other selects, or the word already there where only one selects |
| KernelEdits.KernelUpdatedAt | module/pteditor.c:384-410 | every word after the kernel's update: where slots coincide, the selected level nearest the page wins |
| KernelEdits.KernelWriteBackIsIdentity | module/pteditor.c:367-449 | writing the kernel's answer back under any mask leaves all of memory alone, on any memory and for any macros |
| KernelEdits.KernelEditsLand | ptedit.c:893-947 | through the kernel, a multi-level edit changes the words of exactly the levels asked for that the definition has and that no accepted level nearer the page is stored over, and no other word |
| KernelEdits.SurvivorsExactly | module/pteditor.c:384-410 | on distinct slots those are the existing levels that no accepted missing level follows |
| KernelEdits.EditAboveMissingIsLost | module/pteditor.c:384-395 | any edit of a level right above an accepted missing one, such as the PGD of x86 without P4D, leaves all of memory alone |
| KernelEdits.EditsAgreeExactly | ptedit.c:893-947 | where both walkers follow the same levels on distinct slots, a multi-level edit through the kernel leaves the memory of the user-space one if and only if every valid level asked for survives or is not changed by the edit |
| KernelLevels.LevelsAgreeExactly | module/pteditor.c:290-340 | on x86 with four levels, both walkers mark the same existing levels valid if and only if the PGD is present and not bad, the PUD is not none, and a present PUD is not large and has a PMD that is present or large, an absent one a PMD that is none |
| KernelLevels.UserValid | ptedit.c:142-205 | on x86, the levels the user-space walk marks valid, in terms of the words alone |
| KernelModule.Device.WalkTables | module/pteditor.c:289-340 | the kernel's walk finds exactly the slots and levels it accepts, reading only under a hold |
| KernelModule.Device.ResolveVm | module/pteditor.c:267-364 | the same with the semaphore, whose holds are as before on every path; exactly the levels that the macros let pass; nothing for an unknown pid |
| KernelModule.Device.UpdateVm | module/pteditor.c:367-422 | memory after the top-down stores, each made under the write hold; the flush; holds as before |
| KernelModule.Device.VmToUser | module/pteditor.c:425-449 | fields are read through the slots after the release; a field without a slot keeps the caller's value |
| KernelModule.Device.VmResolve | module/pteditor.c:454-464 | the RESOLVE call: the answer marks exactly the levels that the macros let pass, and shows their words |
| KernelModule.Device.VmUpdate | module/pteditor.c:465-471 | the UPDATE call |
| KernelModule.Device.GetRoot | module/pteditor.c:520-552 | the GET_ROOT call (x86), unknown pids included; holds as before |
| KernelModule.Device.SetRoot | module/pteditor.c:553-573 | the SET_ROOT call, unknown pids included; holds as before |
| Locks.ActionKeepsSafe | module/pteditor.c:267-422 | every step keeps each semaphore's counts equal to its holders, a writer alone, and every locked walk consistent with the memory |
| Locks.WalksExcludeStores | module/pteditor.c:278-363 | while a thread walks the tables of an address space, no other thread stores to them or sets their root |
| Locks.NoStoreDuringWalk | module/pteditor.c:377-421 | so in every run |
| Locks.LockedWalkIsSnapshot | module/pteditor.c:278-363 | in every run the slots and levels of a locked walk are those of one memory state that the run was in during the walk, unless an update of another address space changed a slot between the walk's read of it and its last read |
| Locks.LockedWalkIsCurrent | module/pteditor.c:278-363 | they are those of the memory it ends in, unless one changed a slot after its read |
| Locks.LockedWalkIsSnapshotAlone | module/pteditor.c:278-363 | with one address space in use, without exception |
| LockRuns.LockedWalkIsSnapshotApart | module/pteditor.c:278-363 | with any number of them, if no update of another address space locates a slot that the walk reads |
| TornWalk.LockedWalkIsTorn | module/pteditor.c:267-422 | on every memory in which two address spaces share a PUD table as `Shared` sets out, there is a run in which a locked walk ends with slots and levels of no memory of the run, because the other address space cleared an entry it had followed |
| LockRuns.UpdateAlone | module/pteditor.c:367-422 | an update that runs alone through these steps leaves the memory of the UPDATE call of `Device` |
| LockRuns.ResolveAlone | module/pteditor.c:267-364 | a resolve that runs alone finds what the RESOLVE call of `Device` finds |
| LockRuns.SetRootAlone | module/pteditor.c:553-573 | a SET_ROOT that runs alone replaces the root and leaves every semaphore as it was |
| Locks.AllReleased | module/pteditor.c:520-573 | in every run, once the calls are past their sections, every semaphore is free again |
| Memmap.PrintedIffResolved | demos/memmap.c:61-112 | an address is printed with a size if and only if it lies in the lower half, is aligned to the size, and resolves to a present PTE (4096) or to a present PMD with the size bit (2 MB) |
| Memmap.PrintedIffFound | demos/memmap.c:61-112 | the loops print a range exactly when the tables they read give its start a page of that size |
| Memmap.PrintedIsIncreasing | demos/memmap.c:61-114 | the printed ranges are strictly increasing and disjoint, and their sizes add up to at most 2^47 |
| Enumerator.AddressIsSum | demos/memmap.c:97-106 | the OR of the shifted indices is their sum |
| Enumerator.AddressIsRebuilt | demos/memmap.c:97-106 | the printed address is the one rebuilt from the four counters, and its indices are the counters |
| Enumerator.Program.ReadPhysicalPage | ptedit.c:557-575 | fills a buffer with the words of a frame |
| Enumerator.Program.DumpPt | demos/memmap.c:85-102 | the innermost loop prints what the enumeration says for its table |
| Enumerator.Program.DumpPd | demos/memmap.c:77-108 | the page-directory loop, with the page-table buffer overwritten in each round |
| Enumerator.Program.DumpPdpt | demos/memmap.c:69-111 | the PDPT loop |
| Enumerator.Program.Dump | demos/memmap.c:55-114 | the whole program; the counter is the sum of the printed sizes and never wraps |
| MemoryTypes.FindMt | ptedit.c:760-782 | the returned mask has exactly the bits of the slots that hold the type |
| MemoryTypes.FindFirstMt | ptedit.c:786-798 | the least slot that holds the type, or none exactly when no slot does |
| MemoryTypes.TypeIsByte | ptedit.c:677-684 | the type in a slot is byte `slot` of the PAT, three bits of it on x86 |
| MemoryTypes.HeldOnArm | ptedit.c:760-782 | on ARM a slot holds a type also when both halves of its byte are the type |
| MemoryTypes.MarkedIsShifted | ptedit.c:760-782 | a slot is marked by its own bit of the mask |
| MemoryTypes.PageGetsType | demos/uncachable.c:130-142 | after the slot is applied and the PTE updated, resolving finds the slot and so the type, and every bit but 3, 4 and 7 (2 to 4 on ARM) is as before |
| MemoryTypes.SetType | demos/uncachable.c:120-142 | the whole sequence: the type is found again, every other bit is as before and the page is flushed, and nothing changes when no slot holds the type |

## Left out

- Failing reads and writes of physical memory, and a root that is not 8-byte aligned: memory is read and written in whole words at the addresses the code computes.
- The fields `vaddr` and `pid` of a user-space entry, which only echo the arguments; `has_pt`, which is never read.
- Paging definitions whose shifts reach 64 or whose indices exceed an `int`: the real ones do not.
- Memory types: `ptedit_set_mt` and `ptedit_set_mts`, whose clearing mask is a 32-bit shift, and the text forms of a type.
- The huge-page memory types are modelled as words only; the update pipeline is proved for 4 KB pages.
- VM_LOCK and VM_UNLOCK: they take both sides of one semaphore. `mm_is_locked` is false in `Locks`; the calls of `KernelModule` keep their holds for either value.
- ARM's GET_ROOT answer for an unknown pid, which is the current root register.
- The kernel's `*_none`, `*_bad` and `*_large` macros are parameters about which nothing is assumed, but in `KernelLevels`, whose `FourLevelMacros` lists what is used of Linux's own for x86; `pte_offset_map` never returns NULL; kernels older than 4.11 have no P4D step.
- Locks.LockedWalkIsSnapshot: its condition is sufficient only; stores of the CPU (accessed and dirty bits) and of user-space implementations, which take no lock, are not steps of the runs.
- The TLB of another process, and edits above the PTE: only the one address of the current process is flushed.
- Tlb.RunsAreCoherent: one walk, of the library or of the CPU, is one step; on tree-shaped tables a PTE edit changes no word above the PTEs. The CPU's stores of accessed and dirty bits are stores to entries: they are steps of the free runs of `Coherence` only, where they count as changes of the walk.
- The 2 MB branch of demos/virt2phys.c, which shifts a 4 KB frame number by 21, and the ARM build of demos/memmap.c.
- Opening the device, `ioctl` plumbing, kprobes, `/proc/umem`, barriers, the Windows driver, pretty printing, timing demos and `ptedit_header.h`, which is generated from the modelled files.
- The comparisons `is_same` and `entry_equal` of the demos and tests, which add 64-bit differences into an `int` and are not full equality.
