# A verified model of the hard parts of riscv-pk

The repository bundles `riscv-pk`, the RISC-V proxy kernel with its Berkeley boot loader and the SoftFloat library.
This project models four of its cores in Dafny and proves what they are for.

* **Virtual memory** (`pk/mmap.c`, `pk/mmap.h`, `pk/file.c`). `PageTable` holds the three-level Sv39 table as words in
  a pool of pages and shows that the radix walk implements a flat map. `PageMap` reads the words of that one pool as
  empty, lazy or present pages and as region records, and keeps the two apart. `Vm` states each operation page by
  page, with the reference counts of region records and files and the invariant they keep; `VmProps`, `VmAlloc`,
  `VmRuns` and `VmHeap` prove what follows for contents, permissions, placement, whole runs of system calls and the
  heap. `VmPerms` and `VmShows` say what the process then finds: the exact permissions of every page, the bytes it
  shows, and what is left alone. `Sv39` is the address translation of the processor, run on the same words: it finds
  what the flat map says. `VmKernel` is the imperative code: loops over the radix table and the record array, each
  proved to do what the page-level operation says exactly as long as the tables do not grow into the records. `VmBoot`
  boots that code and runs it: over any sequence of calls the invariant holds on the words of the pool, and the run
  reaches its end, exactly when the tables of all its mappings fit below the records. `Files` is the open-file table.
* **Devicetree filter** (`machine/fdt.c`). `Fdt` has words, strings, trees, the encoding and a parser that is sound,
  complete and unambiguous; `FdtFilter` says what the depth and kill counters of `filter_compat` amount to on trees,
  and `FdtNodes` which nodes that leaves, by the strings of their properties; `FdtScan` is the recursive scan that
  overwrites words in place.
* **SoftFloat** (`softfloat/`). 128-bit arithmetic on two words (`Words`), the table-driven reciprocal (`Recip`), the
  base-2^29 digit recurrence (`Digits`), remainder (`F128Rem`, `F16Rem`), division (`F128Div`), rounding to an
  integral value in two-word and four-limb form (`RoundSpec`, `F128Round`, `Limbs`, `F128MRound`), and truncating
  conversion to `int64_t` in both forms (`F128ToI64`).
* **Protocols** (`machine/htif.c`, `machine/atomic.h`, `machine/mtrap.c`, `machine/mentry.S`). `Htif`, `Ipi` and
  `IpiCalls` are state machines in which any number of harts, and the host, take single shared-memory accesses in any
  order.

`dafny verify dfyconfig.toml` checks everything. Integers are unbounded; every wrap-around that the C code relies on
is written out. Some definitions (`Fdt.Spells`, `FdtScan.Spliced`, `PageTable.Table.Inv`, `PageMap.Map.Valid`,
`VmKernel.Room`, `VmBoot.Spent` and others) wrap their meaning in a quantifier over a key, so that the verifier looks
it up only where a proof names the key.

## Where the code and its promises differ

* `f128_div` needs the reciprocal within 2 units. With the table in the tree it can be further off, and then the last
  digit can be judged on the wrong side of a rounding boundary: `F128Div.MisjudgedExample` gives two significands
  whose quotient is rounded toward zero to the wrong value. `F128Div.QuotientSameSide` says exactly when this happens.
* `__page_alloc1` puts the region records at a hundred times the pool index and reserves only a hundred indices. Page
  tables are allocated upwards towards them, one per 2 MiB of mapped user space and never freed, and nothing stops the
  allocator at the records. `VmKernel.Kernel.MapLoop` says exactly when a mapping fits below them, by the tables it
  lacks, and `VmBoot.RunCalls` when a run from boot does; one table more, and the first record page has been cleared
  to be a page table. Its 102 whole records are then blank: `VmKernel.LostRecordReused` shows that a live record 0 is
  handed out again while leaves point to it. By the time a mapping fails in this way at most one link word has been
  written into that page (`PageMap.WreckedRecords`), and a live record is lost in every case (`VmKernel.OverrunLoses`,
  `VmKernel.WreckedBreaks`).
* For a kernel of more than 2560 pages the same rule puts the records outside the pool, where nothing keeps the frames
  of user pages off them (`VmBoot.Boot`).
* The kassert of eager population fails when the file does not reach into the last page: `VmRuns.EagerIff`, and
  `VmRuns.EmptyFilePanics` for an example.
* `__do_mmap` with length 0, which the ELF loader can request, leaks a file reference, and does so exactly when there
  is a file (`VmRuns.MmapKeepsIff`).
* Read permission can grow. A fault adds it exactly when the region has no permission at all, mprotect exactly when
  the page is present and the request has none (`VmProps.FaultReadIff`, `VmProps.ProtectReadIff`); so every user page
  can be made readable (`VmProps.ReadIsGained`).
* mprotect of a page that waits for its fault changes the protection of every waiting page of its region, the range
  asked for or not: `VmPerms.ProtectGives` and `VmPerms.ProtectSpills` say exactly which pages change.
* A region with write permission alone gets leaf words that Sv39 reserves: every access to its pages faults, although
  `__handle_page_fault` answers that it has handled the fault (`Sv39.WriteOnlyFaults`, `VmPerms.LoadAnswers`).
* `__vm_alloc` does not check that the request fits user space. A larger one is placed outside it, and mapping it
  there breaks the invariant (`VmRuns.PlacedInRangeIff`, `VmAlloc.OversizeIsFound`, `VmRuns.OutsideBreaks`).
* `brk_max` is not lowered below the stack, so the heap can be grown over it: `VmHeap.BrkTakesIff` says which pages a
  brk request takes, in either paging mode; `VmHeap.HeapReplacesStack` is the case of all of them.
* `filter_compat` removes any surviving node at depth 999, listed or not: `FdtScan.FilteredSpells` is an
  if-and-only-if, and `FdtScan.DeepNodeVanishes` the example.
* `f128M_roundToInt` on one array for input and output clears words before it reads them when the magnitude is below
  one: `F128MRound.InPlaceIff` says for which inputs the answer is still right.
* `send_ipi_many` says that it waits until all events have been handled. It waits until it has seen the recipient's
  `ipi` clear. By then the recipient may only have entered its handler (`Ipi.BackDuringHandler`), or, when it is
  itself waiting, have put the interrupt aside (`Ipi.BackBeforeHandled`). `Ipi.LeftBehind` shows that there is no
  third way, and `Ipi.OutsideIsInterrupted` that the recipient runs nothing outside machine mode before it takes the
  event. The promise that nobody deadlocks is kept (`Ipi.SenderComesBack`) except towards a hart that halts with its
  `ipi` set (`Ipi.StuckBlocks`).

## Model

| member | source | states |
|---|---|---|
| `PageTable.SlotsDistinct` | riscv-pk/pk/mmap.c:99-123 | two virtual pages never share a leaf slot |
| `PageTable.LinkKeeps` | riscv-pk/pk/mmap.c:107-111 | hanging a cleared page under an invalid interior word keeps the tree well shaped and every leaf word of every page |
| `PageTable.WroteMore` | riscv-pk/pk/mmap.c:105-133 | creating a path table by table: each page it takes has been cleared and holds at most one link, and a path that lacks one table changes one word outside that page |
| `PageTable.Table.constructor` | riscv-pk/pk/mmap.c:433-433 | the root page alone is a well-shaped tree whose leaf words are all 0 |
| `PageTable.Table.PageAlloc` | riscv-pk/pk/mmap.c:32-38 | hands out the next pool page, cleared, fails exactly when the pool is used up, changes no leaf and no word beyond the allocator |
| `PageTable.Table.Descend` | riscv-pk/pk/mmap.c:115-121 | the walk stops at level 0 exactly when the tree covers the page, otherwise at the table whose child is missing |
| `PageTable.Table.Walk` | riscv-pk/pk/mmap.c:113-128 | finds the one slot of the page and reads its flat-map entry; not found means the entry is 0 |
| `PageTable.Table.WalkCreate` | riscv-pk/pk/mmap.c:113-133 | yields the page's slot, uses exactly the missing tables of the path on the next pool pages, fails exactly when they do not fit, changes no page's entry and no word beyond the allocator; terminates because missing tables decrease |
| `PageTable.Table.ContinueWalkCreate` | riscv-pk/pk/mmap.c:107-111 | the other half of the mutual recursion, with the same guarantee |
| `PageTable.Table.Store` | riscv-pk/pk/mmap.c:273-273 | a store through a slot changes that page's entry and no other |
| `PageTable.Table.PageAlloc1` | riscv-pk/pk/mmap.c:40-48 | takes and clears a hundred pages at a hundred times the index, moves the index by a hundred, and changes no leaf |
| `Sv39.FieldsAreIndices` | riscv-pk/pk/mmap.c:99-103 | the indices of the walk are the fields VPN[0] to VPN[2] of the virtual address |
| `Sv39.TranslateFinds` | riscv-pk/pk/mmap.c:113-128 | the address translation of the privileged architecture, run on the words of the pool, ends at the leaf word that the flat map has, or in a page fault where that is no leaf |
| `PageTable.RecordsKeptIff` | riscv-pk/pk/mmap.c:32-38 | handing out one page leaves the record words alone if and only if the page is none of theirs or held nothing |
| `PageTable.MissingIs` | riscv-pk/pk/mmap.c:107-123 | a path takes as many pool pages as it has tables that are not there yet |
| `PageTable.RecordsDisjointIff` | riscv-pk/pk/mmap.c:40-48 | the record pages are disjoint from the pages handed out if and only if the index was 0, or the allocator has not passed page 100 n, or has not moved; `PageMap.Map.MakeSlot` uses it |
| `PageMap.DecodePte` | riscv-pk/pk/mmap.c:204-204 | a leaf word built by pte_create decodes to the same page number and permission bits |
| `PageMap.DecodeRecord` | riscv-pk/pk/mmap.c:273-273 | the address of a region record is a nonzero word with the valid bit clear that decodes to that record |
| `Sv39.PteSeen` | riscv-pk/pk/mmap.c:204-204 | a leaf word that pte_create makes, as the processor reads it: its page number and each of its bits |
| `PageMap.RecWritten` | riscv-pk/pk/mmap.c:68-73 | a record written field by field into the pool reads back, and no other record changes |
| `PageMap.Map.AllocRecords` | riscv-pk/pk/mmap.c:53-61 | the record pages come back as blank records, exactly when they fit the pool above the allocator |
| `PageMap.Map.TakePage` | riscv-pk/pk/mmap.c:449-449 | a page for the kernel's own use can be had exactly as long as the allocator is below the records, and then pages and records are as they were |
| `PageMap.Map.GetRec` | riscv-pk/pk/mmap.c:64-65 | reads a record out of the pool words |
| `PageMap.Map.PutRec` | riscv-pk/pk/mmap.c:68-73 | writes a record into the pool words and changes no page and no other record |
| `PageMap.Map.Load` | riscv-pk/pk/mmap.c:135-139 | reading through the walk gives the entry of the flat page map |
| `PageMap.Map.Store` | riscv-pk/pk/mmap.c:234-234 | writing through a slot updates the flat page map at that page only |
| `PageMap.Map.MakeSlot` | riscv-pk/pk/mmap.c:267-268 | creating a path leaves pages and records as they were if and only if its missing tables fit below the records, which is when no page is handed out twice; otherwise the first record page is a page table, cleared but for one link at most |
| `Sv39.HardwareSees` | riscv-pk/pk/mmap.c:113-128 | in every valid state the processor sees exactly the present pages, at their frames and with their permissions, and faults on all others |
| `Sv39.WriteOnlyFaults` | riscv-pk/pk/mmap.c:159-168 | a page with write permission alone faults on every access |
| `PageMap.WreckedRecords` | riscv-pk/pk/mmap.c:32-38 | of the records in a page that has become a page table all are blank but for one at most, and the first has lost its count or its length |
| `Vm.FirstFree` | riscv-pk/pk/mmap.c:64-76 | the lowest record with a zero count |
| `Vm.AllocIsFresh` | riscv-pk/pk/mmap.c:64-78 | no leaf points to the record that __vmr_alloc hands out: a live record is never reused |
| `Vm.AllocKeeps` | riscv-pk/pk/mmap.c:64-78 | a new record counts its file once and owes as many leaves as its count |
| `Vm.DecrefKeepsFiles` | riscv-pk/pk/mmap.c:80-87 | dropping a record reference drops the file reference exactly when the record dies |
| `Vm.UnmapPageKeeps` | riscv-pk/pk/mmap.c:225-235 | unmapping any page keeps every record count equal to its not-present leaves, every file count, and every leaf well formed |
| `Vm.UnmapRangeKeeps` | riscv-pk/pk/mmap.c:223-237 | the same for a whole range |
| `Vm.MapRangeKeeps` | riscv-pk/pk/mmap.c:265-274 | mapping n pages over whatever was there pays off exactly the n references of the new record |
| `Vm.FaultKeeps` | riscv-pk/pk/mmap.c:177-212 | a fault moves one leaf to its own frame and gives up exactly its reference |
| `Vm.PopulateKeeps` | riscv-pk/pk/mmap.c:277-279 | eager population keeps the invariant |
| `Vm.ProtectRangeKeeps` | riscv-pk/pk/mmap.c:354-393 | mprotect keeps the invariant, also when it stops half way |
| `VmProps.FaultOrderIrrelevant` | riscv-pk/pk/mmap.c:177-213 | faulting the same pages in any two orders leaves the same leaves and bytes |
| `VmProps.ContentBytes` | riscv-pk/pk/mmap.c:193-202 | a faulted page holds the file bytes at the right offset followed by zeros; it exists exactly when the file reaches into the page |
| `VmPerms.FaultGrants` | riscv-pk/pk/mmap.c:177-213 | a fault that loads a page puts it in its own frame with exactly the permissions, accessed and dirty bits of its region, and touches no other page; any other fault changes nothing |
| `VmPerms.FaultAnswers` | riscv-pk/pk/mmap.c:208-213 | a fault is answered as handled if and only if the page lies in user space and is present afterwards with everything asked for |
| `VmPerms.LoadAnswers` | riscv-pk/pk/mmap.c:208-213 | for a page that is loaded: if and only if its region has every permission asked for, or none was asked for and it can be read |
| `VmPerms.FaultPanics` | riscv-pk/pk/mmap.c:193-197 | the kassert of a fault fails if and only if it would load a page without bytes |
| `VmPerms.TypedAnswers` | riscv-pk/pk/mmap.c:208-213 | in a state whose present pages have flags made by prot_to_type, that answer said of the permissions |
| `VmPerms.StepTyped` | riscv-pk/pk/mmap.c:159-168 | every call keeps the flags of present pages such |
| `VmProps.PopulateIsFaults` | riscv-pk/pk/mmap.c:277-279 | when every page has bytes the populate loop succeeds and is the page faults in ascending order |
| `VmProps.PopulateIff` | riscv-pk/pk/mmap.c:277-279 | the kassert of the populate loop holds if and only if every page has bytes |
| `VmProps.RunNoGain` | riscv-pk/pk/mmap.c:354-393 | over any sequence of faults and mprotect calls no page gains write or execute permission |
| `VmProps.FaultReadIff` | riscv-pk/pk/mmap.c:159-168 | a fault makes a page readable if and only if it loads it and its region has no permission at all |
| `VmProps.ProtectReadIff` | riscv-pk/pk/mmap.c:377-387 | mprotect makes a page readable if and only if it is a present user page and the request has no permission at all |
| `VmPerms.ProtectStops` | riscv-pk/pk/mmap.c:362-390 | mprotect stops at the first page that does not permit it, with ENOMEM if that is not mapped and EACCES otherwise, having done what it does for the pages before it; without one it succeeds |
| `VmPerms.PermitsIs` | riscv-pk/pk/mmap.c:372-384 | a mapped user page permits a request if and only if it has every permission asked for |
| `VmPerms.ProtectGives` | riscv-pk/pk/mmap.c:362-390 | a successful mprotect gives present pages of the range exactly the permissions asked for, regions with a waiting page in it that protection, and changes nothing else |
| `VmPerms.ProtectedMay` | riscv-pk/pk/mmap.c:362-390 | after it each page of the range may be written and executed exactly as asked for, and read when asked for, or when present and nothing was asked for |
| `VmPerms.ProtectSpills` | riscv-pk/pk/mmap.c:372-379 | a page outside the range changes protection if and only if it waits in a region in which a page of the range waits |
| `VmProps.RunNoReadGain` | riscv-pk/pk/mmap.c:354-393 | over any run a page gains no read permission unless it waits with no permission or a request has none |
| `VmProps.ReadIsGained` | riscv-pk/pk/mmap.c:159-168 | every user page can be made readable by asking for no permission and touching it |
| `VmProps.Va2PaAgrees` | riscv-pk/pk/mmap.h:37-39 | every present page translates through the table to what va2pa computes |
| `VmProps.FramesSeparate` | riscv-pk/pk/mmap.c:422-438 | user frames are pairwise distinct, above the pool and inside DRAM |
| `VmAlloc.FirstFitIsLowest` | riscv-pk/pk/mmap.c:141-157 | first fit is the lowest free start in bounds, and none means there is none |
| `VmAlloc.SkipBlocked` | riscv-pk/pk/mmap.c:147-153 | a mapped page within reach rules out every start up to it, so skipping past it loses nothing |
| `VmAlloc.EndInRangeIff` | riscv-pk/pk/mmap.c:144-144 | the unsigned loop bound stays in user space if and only if the request fits; otherwise it admits every start that does not run over the address space |
| `VmAlloc.FoundInRangeIff` | riscv-pk/pk/mmap.c:141-157 | a start that is found keeps the request below mmap_max if and only if the request fits user space |
| `VmAlloc.OversizeIsFound` | riscv-pk/pk/mmap.c:144-145 | a request that does not fit is not refused: with room above the mapped pages a start is found |
| `VmRuns.MmapAtKeeps` | riscv-pk/pk/mmap.c:239-283 | mapping a nonempty range, lazily or eagerly, over anything keeps the invariant |
| `VmRuns.ZeroLengthLeaks` | riscv-pk/pk/mmap.c:242-242 | with length 0 the count wraps to 0 after the file has been counted, and the file invariant is broken |
| `VmRuns.MmapKeepsIff` | riscv-pk/pk/mmap.c:239-283 | a mapping inside user space keeps the invariant if and only if it has pages or no file |
| `VmRuns.EagerIff` | riscv-pk/pk/mmap.c:277-279 | eager mapping succeeds if and only if there is no file or it reaches into the last page, and panics otherwise |
| `VmRuns.EmptyFilePanics` | riscv-pk/pk/mmap.c:196-197 | no empty file can be mapped eagerly |
| `VmRuns.PlacedInRangeIff` | riscv-pk/pk/mmap.c:251-254 | a request without MAP_FIXED ends inside user space if and only if it is no larger than that |
| `VmRuns.OutsideBreaks` | riscv-pk/pk/mmap.c:265-274 | a mapping that ends outside user space breaks the invariant |
| `VmRuns.EagerEqualsLazy` | riscv-pk/pk/mmap.c:257-283 | where eager mapping succeeds it equals lazy mapping followed by faults of its pages in any order |
| `VmShows.MmapShows` | riscv-pk/pk/mmap.c:239-315 | where do_mmap maps, each page of the range waits for, or when populated shows, the bytes of the descriptor's file from offset + page - address on, then zeros, with exactly the permissions asked for; a fixed request is mapped where it says; every other page shows what it did |
| `VmShows.MmapAtShows` | riscv-pk/pk/mmap.c:265-279 | the same for __do_mmap |
| `VmShows.MunmapClears` | riscv-pk/pk/mmap.c:285-295 | munmap takes away exactly the pages of an aligned range in user space, and otherwise nothing |
| `VmShows.BrkShows` | riscv-pk/pk/mmap.c:317-338 | brk moves the end of the heap to the clamped request rounded up; pages gained show, or wait for, zeros with every permission, pages lost are gone, and every other shows what it did |
| `VmShows.DupShows` | riscv-pk/pk/syscall.c:169-181 | dup lets the lowest free descriptor name the same file, when the one given is open and there is one |
| `VmShows.CloseShows` | riscv-pk/pk/file.c:107-118 | close frees exactly an open descriptor |
| `VmShows.OpenShows` | riscv-pk/pk/syscall.c:83-100 | openat lets the lowest free descriptor name the lowest unused slot, or changes no descriptor |
| `VmRuns.StepKeeps` | riscv-pk/pk/mmap.c:285-393 | every memory and file system call keeps the invariant of the process |
| `VmRuns.RunKeeps` | riscv-pk/pk/mmap.c:64-87 | over every run of the calls each record count is the number of not-present leaves pointing to it and each file count is 0 or 1 plus its descriptors, records and outstanding references, for records that the page tables keep clear of |
| `VmRuns.ProcBoot` | riscv-pk/pk/mmap.c:419-443 | a process without descriptors starts in order, given the invariant of its memory |
| `VmRuns.OpenKeeps` | riscv-pk/pk/syscall.c:83-100 | sys_openat keeps the file counts, the reference it never drops included |
| `VmRuns.DupKeeps` | riscv-pk/pk/syscall.c:169-181 | sys_dup keeps the file counts |
| `VmRuns.CloseKeeps` | riscv-pk/pk/file.c:107-118 | closing a descriptor keeps the file counts |
| `VmRuns.BrkStepKeeps` | riscv-pk/pk/mmap.c:317-338 | brk, growing or shrinking, keeps the invariant |
| `VmHeap.MmapEffect` | riscv-pk/pk/mmap.c:297-315 | without MAP_FIXED the pages mapped were free, lie at or above brk, and are all that changes; brk_max drops to them |
| `VmHeap.BrkKeepsHeap` | riscv-pk/pk/mmap.c:317-338 | brk disturbs neither leaf nor bytes of any live mmap region |
| `VmHeap.MmapKeepsHeap` | riscv-pk/pk/mmap.c:297-315 | mmap disturbs no live region and its own is disjoint from all |
| `VmHeap.HeapRunKeeps` | riscv-pk/pk/mmap.c:297-338 | in every run the heap and all regions returned by mmap stay pairwise disjoint while mapped |
| `VmHeap.BrkTakesIff` | riscv-pk/pk/mmap.c:317-338 | with demand paging on or off, a page at or above brk becomes a page of the heap (a leaf of the new record, or a page of zeros in its own frame) if and only if the new end lies above it, and is left alone otherwise |
| `VmHeap.HeapReplacesStack` | riscv-pk/pk/mmap.c:437-443 | a brk up to the end of user space replaces every stack page by a heap page, in both modes |
| `VmKernel.BootInv` | riscv-pk/pk/mmap.c:433-434 | after boot maps the kernel to itself the invariant holds |
| `VmKernel.RecordsLost` | riscv-pk/pk/mmap.c:32-38 | when the allocator hands out the first record page its records read as blank |
| `VmKernel.LostRecordReused` | riscv-pk/pk/mmap.c:32-78 | when the allocator hands out the first record page while record 0 is live, the invariant is broken, and the next mapping is given record 0 while leaves point to it |
| `VmKernel.WreckedBreaks` | riscv-pk/pk/mmap.c:64-74 | while a leaf points to record 0, no state whose records are read from a page that has become a table satisfies the invariant |
| `VmKernel.FirstIsLive` | riscv-pk/pk/mmap.c:64-74 | when a mapping has taken its record, record 0 is live |
| `VmKernel.OverrunLoses` | riscv-pk/pk/mmap.c:239-274 | so a mapping whose tables reach the records has lost a live record: record 0 no longer reads as it was |
| `VmKernel.Kernel.VmrAlloc` | riscv-pk/pk/mmap.c:50-78 | the first call takes the record pages, exactly when they lie in the pool above the allocator; the lowest free record is filled, or nothing changes |
| `VmKernel.Kernel.FindFree` | riscv-pk/pk/mmap.c:64-76 | the loop over the pool finds the lowest free record |
| `VmKernel.Kernel.VmrDecref` | riscv-pk/pk/mmap.c:80-87 | does what the page-level model says to records and files |
| `VmKernel.Kernel.DoMunmap` | riscv-pk/pk/mmap.c:223-237 | the loop over the radix table unmaps exactly the pages of the range |
| `VmKernel.Kernel.MapLoop` | riscv-pk/pk/mmap.c:265-274 | the loop maps exactly the pages of the range if and only if the tables they lack fit below the records, and takes one pool page for each; otherwise the first record page becomes a page table |
| `VmKernel.Kernel.HandlePageFault` | riscv-pk/pk/mmap.c:177-213 | the two-stage store of the entry refines the page-level fault, failures and panics included; what that grants and answers is in `VmPerms` |
| `VmKernel.Kernel.PopulateLoop` | riscv-pk/pk/mmap.c:277-279 | refines eager population |
| `VmKernel.Kernel.MapKernelRange` | riscv-pk/pk/mmap.c:395-405 | maps each kernel page at its offset and changes no other page, exactly when the tables it lacks can be had, and takes one pool page for each |
| `VmKernel.Kernel.ScanDown` | riscv-pk/pk/mmap.c:149-153 | comes back at the start exactly when all pages are free, otherwise at a mapped page |
| `VmKernel.Kernel.VmAlloc` | riscv-pk/pk/mmap.c:141-157 | for every request the skipping search returns what naive first fit returns within the wrapped bound, 0 when there is none, and terminates; it gives up only for a request larger than user space with no room below 2^64 |
| `VmKernel.Kernel.DoMmap` | riscv-pk/pk/mmap.c:239-315 | refines the mapping step, brk_max update included; an address is returned only with room for the tables below the records, each of which takes one pool page; without room the first record page becomes a table; the search leaves user space only for a request larger than that; what the pages then show is in `VmShows` |
| `VmKernel.Kernel.DoBrk` | riscv-pk/pk/mmap.c:317-338 | succeeds if and only if the brk step does and the tables of the new pages fit below the records, and then is that step, takes one pool page for each, and returns the clamped address; panics only where the step does |
| `VmKernel.Kernel.DoMprotect` | riscv-pk/pk/mmap.c:354-393 | the loop refines the page-level mprotect, stopping at the first error; unaligned and wrapping ranges change nothing; what it gives and when it refuses is in `VmPerms` |
| `VmBoot.MeansKeeps` | riscv-pk/pk/mmap.c:285-393 | what any of the calls means to a process keeps its invariant |
| `VmBoot.MeansIsStep` | riscv-pk/pk/mmap.c:297-315 | what an mmap call of a run means is the step of the system call, between the reference it takes and drops |
| `VmBoot.DoCall` | riscv-pk/pk/mmap.c:285-393 | a call on the words of the pool keeps the invariant, does what it means and takes one pool page for each table it lacks; or a kassert fails in what it means, or its tables pass the records, or it leaves user space |
| `VmBoot.SpentPasses` | riscv-pk/pk/mmap.c:32-38 | when the tables of one call pass the records, those of the whole run do not fit below them |
| `VmBoot.SpentAll` | riscv-pk/pk/mmap.c:32-38 | at the end of a run the allocator has moved by the number of tables that all its mappings lacked at the start |
| `VmBoot.RunCalls` | riscv-pk/pk/mmap.c:285-393 | over every sequence of mmap, munmap, brk, mprotect and faults on the words of the pool: the run ends in a state of the count invariant, and in the one the calls mean, if and only if the tables of all its mappings fit below the records, unless a call leaves user space or fails a kassert |
| `VmBoot.NeedSize` | riscv-pk/pk/mmap.c:113-123 | a range under one middle table needs that table and one leaf table for each 2 MiB it touches |
| `VmBoot.Boot` | riscv-pk/pk/mmap.c:419-450 | boot reaches a state in order, records in place and the kernel, the stack and the page of the kernel's stack allocated, if and only if the kernel has at most 2560 pages; then memory is the kernel in frames of its own number for the kernel alone, the stack, to read, write and execute, and nothing else |
| `VmBoot.BootFits` | riscv-pk/pk/mmap.c:32-48 | from boot on a run fits if and only if n + 101 plus the tables of the stack and all mappings that the kernel does not have is at most 100 n, n being the tables of the kernel |
| `Files.IncrefOk` | riscv-pk/pk/file.c:17-21 | a new reference keeps the count at one more than the references |
| `Files.DropOk` | riscv-pk/pk/file.c:23-33 | dropping a reference keeps the counts; the slot becomes free exactly when it was the last |
| `Files.GetFreeOk` | riscv-pk/pk/file.c:35-41 | a slot handed out had no references; none means every slot is in use |
| `Files.DupOk` | riscv-pk/pk/file.c:43-54 | the new descriptor is counted |
| `Files.GetOk` | riscv-pk/pk/file.c:66-80 | a descriptor in use yields a counted reference to its slot, any other number nothing |
| `Files.CloseOk` | riscv-pk/pk/file.c:107-118 | succeeds exactly for a descriptor in use and gives up exactly its reference |
| `Files.FileTable.FileGetFree` | riscv-pk/pk/file.c:35-41 | the loop takes the first free slot |
| `Files.FileTable.FileDup` | riscv-pk/pk/file.c:43-54 | the loop takes the first free descriptor |
| `Files.FileTable.FdClose` | riscv-pk/pk/file.c:107-118 | does what closing means and keeps the table valid |
| `Files.FileTable.FileDecref` | riscv-pk/pk/file.c:23-33 | drops one reference |
| `Fdt.BswapReverses` | riscv-pk/machine/fdt.c:10-15 | bswap reverses the bytes and is its own inverse |
| `Fdt.StoreThenLoad` | riscv-pk/machine/fdt.c:73-74 | a word stored through bswap is loaded through bswap as the same value |
| `Fdt.ListIndexFindsFirst` | riscv-pk/machine/fdt.c:136-147 | the index is that of the first string of the list equal to the one sought, -1 if and only if there is none |
| `Fdt.ListPrefix` | riscv-pk/machine/fdt.c:136-147 | a list is read no further than the first zero byte behind it |
| `Fdt.StrlenWords` | riscv-pk/machine/fdt.c:69-71 | strlen/4 is the number of whole words before the one with the terminator |
| `Fdt.SpellsUnique` | riscv-pk/machine/fdt.c:46-85 | words spell at most one tree |
| `Fdt.Parse` | riscv-pk/machine/fdt.c:30-87 | the recursive scan finds the tree the words spell, exactly when there is one |
| `FdtFilter.FilterIsPrune` | riscv-pk/machine/fdt.c:518-558 | apart from NOPs the filtered tree is the original without each maximal subtree whose root lists the string |
| `FdtFilter.FilterOverwrites` | riscv-pk/machine/fdt.c:73-74 | each word stays in place or becomes a NOP |
| `FdtFilter.FilterRemovesAll` | riscv-pk/machine/fdt.c:518-558 | no listed node is left |
| `FdtFilter.FilterIdle` | riscv-pk/machine/fdt.c:518-558 | a tree without listed nodes is left alone |
| `FdtFilter.ScanDoomed` | riscv-pk/machine/fdt.c:524-530 | inside a node that will be removed nothing changes and nothing more is found |
| `FdtFilter.ScanListed` | riscv-pk/machine/fdt.c:524-530 | of a listed node nothing is changed before it is removed as a whole |
| `FdtFilter.ScanLive` | riscv-pk/machine/fdt.c:518-541 | the depth and kill counters find whether a node is listed and otherwise filter its children, if and only if no surviving unlisted node is at depth 999 |
| `FdtFilter.ScanLeaves` | riscv-pk/machine/fdt.c:518-541 | in every case the scan leaves the words of the tree without the listed subtrees and those at depth 999, each word kept or a NOP |
| `FdtFilter.LeftStays` | riscv-pk/machine/fdt.c:518-541 | of what is left nothing more goes |
| `FdtNodes.StringsBegin` | riscv-pk/machine/fdt.c:136-147 | the strings of a list are those that begin at its start or behind a zero byte, up to the next zero byte |
| `FdtNodes.ListsIff` | riscv-pk/machine/fdt.c:524-528 | a property counts if and only if its name is "compatible" and one of the strings of its list is the one looked for |
| `FdtNodes.ListedIff` | riscv-pk/machine/fdt.c:524-541 | a node is listed if and only if one of its own properties counts |
| `FdtNodes.FilteredChains` | riscv-pk/machine/fdt.c:518-558 | of a block exactly those nodes stay that neither list the string nor lie below one that does nor are 999 levels deep, in order and with their names and properties; all stay when a property outside every node lists it |
| `FdtNodes.TooDeepIff` | riscv-pk/machine/fdt.c:532-541 | the depth condition: some node 999 levels deep neither lists the string nor lies below one that does |
| `FdtScan.Scanner.StringListIndex` | riscv-pk/machine/fdt.c:136-147 | the loop computes the index from the words of the property alone |
| `FdtScan.Scanner.CompatProp` | riscv-pk/machine/fdt.c:524-530 | lowers kill to the current depth exactly for a property that `FdtNodes.ListsIff` describes, when no outer node is marked |
| `FdtScan.Scanner.CompatClose` | riscv-pk/machine/fdt.c:532-541 | asks for removal exactly when kill is the depth being closed |
| `FdtScan.Scanner.ScanNode` | riscv-pk/machine/fdt.c:63-77 | replaces the words of one node by what the scan of its tree says, in place, and leaves all others |
| `FdtScan.Scanner.ScanHelper` | riscv-pk/machine/fdt.c:30-87 | replaces the words of a run of items by what the scan of their trees says, leaves all others, and never fails its assertion |
| `FdtScan.FilteredSpells` | riscv-pk/machine/fdt.c:543-558 | the buffer spells the filtered tree if and only if no surviving unlisted node is at depth 999 |
| `FdtScan.ListedAtTop` | riscv-pk/machine/fdt.c:524-541 | a listing property outside every node disables the filter |
| `FdtScan.FilterCompat` | riscv-pk/machine/fdt.c:543-558 | for every well-formed block the buffer spells a tree with exactly the nodes that stay (`FdtNodes.FilteredChains`), every word kept in place or a NOP; that is the tree without the listed subtrees if and only if no node that is to survive is 999 levels deep; a listing property outside every node leaves it as it was |
| `FdtScan.FilterTwice` | riscv-pk/machine/fdt.c:543-558 | on every well-formed block a second run changes nothing |
| `FdtScan.DeepNodeVanishes` | riscv-pk/machine/fdt.c:532-541 | a node at depth 999 is overwritten whatever it contains |
| `Words.Add128` | riscv-pk/softfloat/s_add128.c:43-52 | addition modulo 2^128 |
| `Words.Sub128` | riscv-pk/softfloat/s_sub128.c:43-52 | subtraction modulo 2^128 |
| `Words.ShortShiftLeft128` | riscv-pk/softfloat/s_shortShiftLeft128.c:43-52 | multiplication by a power of two modulo 2^128 |
| `Words.Mul128By32` | riscv-pk/softfloat/s_mul128By32.c:43-55 | the three partial products give the product modulo 2^128 |
| `Recip.ApproxRecip32Ok` | riscv-pk/softfloat/s_approxRecip32_1.c:45-63 | for every normalised 32-bit argument the table-driven estimate is never above the true reciprocal and at most 2.008 units in the last place below it |
| `Digits.RoundedDigit` | riscv-pk/softfloat/f128_rem.c:130-138 | the rounded estimate is off by less than one divisor, so one correction suffices and the remainder stays in the range the next estimate needs |
| `Digits.OneDigit` | riscv-pk/softfloat/f128_rem.c:130-139 | in wrapping 128-bit arithmetic one step multiplies by 2^29 and subtracts an exact multiple of the divisor |
| `F128.NormalParts` | riscv-pk/softfloat/f128_rem.c:96-111 | exponent and significand, normalised, with the magnitude unchanged |
| `F128Rem.ReduceBy29` | riscv-pk/softfloat/f128_rem.c:127-140 | the loop keeps the remainder congruent to the scaled dividend, terminates, and leaves expDiff at -29 or above |
| `F128Rem.LastDigit` | riscv-pk/softfloat/f128_rem.c:144-147 | the partial last digit leaves an exact remainder at least minus half the divisor |
| `F128Rem.Descend` | riscv-pk/softfloat/f128_rem.c:155-167 | the do-while loop and the selection find the remainder of the nearest quotient, ties to even |
| `F128Rem.SelectRem` | riscv-pk/softfloat/f128_rem.c:160-167 | of two adjacent remainders the one of the nearest quotient is chosen, ties to even |
| `F128Rem.RemCore` | riscv-pk/softfloat/f128_rem.c:110-167 | exact remainder for every exponent difference |
| `F128Rem.F128Rem` | riscv-pk/softfloat/f128_rem.c:44-189 | for all finite a and finite nonzero b the value handed to packing is a - n b with n nearest a/b, ties to even; NaN, invalid and infinite cases exactly as specified |
| `IeeeRem.NearestUnique` | riscv-pk/softfloat/f128_rem.c:160-167 | the nearest-even quotient, and so the remainder, is unique |
| `F16Rem.ReduceBy29` | riscv-pk/softfloat/f16_rem.c:130-135 | the loop is exact although remainder and products wrap modulo 2^16 |
| `F16Rem.RemLong` | riscv-pk/softfloat/f16_rem.c:117-151 | exact nearest-even remainder for positive exponent differences |
| `F16Rem.F16Rem` | riscv-pk/softfloat/f16_rem.c:44-170 | the IEEE remainder for all finite a and finite nonzero b, in wrapping 16-bit arithmetic |
| `F128Div.DigitsExact` | riscv-pk/softfloat/f128_div.c:131-144 | three digits and the remainder satisfy rem0 2^87 = (qs2 2^58 + qs1 2^29 + qs0) sigB + rem |
| `F128Div.LastDigitSameSide` | riscv-pk/softfloat/f128_div.c:147-159 | the last digit, corrected or not, is on the true quotient's side of every multiple of 8 if and only if it is not misjudged |
| `F128Div.QuotientSameSide` | riscv-pk/softfloat/f128_div.c:129-170 | the same for the whole assembled quotient |
| `F128Div.SameSideRounds` | riscv-pk/softfloat/f128_div.c:169-170 | numbers on the same side of every multiple of 8 round alike in every mode and agree on exactness |
| `F128Div.TwoUnitsSuffice` | riscv-pk/softfloat/f128_div.c:129-170 | with a reciprocal within two units every quotient rounds correctly in every mode |
| `F128Div.MisjudgedExample` | riscv-pk/softfloat/f128_div.c:147-159 | two significands for which the table's reciprocal makes the quotient round wrongly |
| `F128Div.DigitLoop` | riscv-pk/softfloat/f128_div.c:130-144 | the loop computes the three digits in wrapping arithmetic |
| `F128Div.DivFinite` | riscv-pk/softfloat/f128_div.c:121-170 | exponent and assembled quotient, on the right side of every rounding boundary if and only if not misjudged |
| `F128Div.QuotientValue` | riscv-pk/softfloat/f128_div.c:121-170 | the number handed to rounding, its exponent included, is on the same side of every rounding boundary as the quotient of the operands if and only if the last digit was not misjudged |
| `F128Div.F128Div` | riscv-pk/softfloat/f128_div.c:44-198 | the special cases exactly, and the finite quotient of the normalised operands |
| `RoundSpec.RoundBitsIsRounding` | riscv-pk/softfloat/f128_roundToInt.c:64-169 | the bit-level rule is rounding of the real value to an integer in each mode, with the inexact decision |
| `RoundSpec.InfinityAndZeroStay` | riscv-pk/softfloat/f128_roundToInt.c:64-80 | an infinity and a zero come back unchanged and exact |
| `F128Round.RoundToInt` | riscv-pk/softfloat/f128_roundToInt.c:44-171 | the two-word code computes that rule and raises inexact exactly when asked and due |
| `F128MRound.RoundToInt` | riscv-pk/softfloat/f128M_roundToInt.c:93-218 | the limb loop computes the same result and the same inexact decision, into another array or the same one; on the same one a magnitude below one is rounded as if its three low words were zero |
| `F128MRound.InPlaceIff` | riscv-pk/softfloat/f128M_roundToInt.c:93-218 | on one array the result is right if and only if the magnitude is not below one, or the low words are zero, or they are neither all there is of the number nor what tells it from one half in round-to-nearest-even |
| `F128ToI64.TruncatedIsTruncation` | riscv-pk/softfloat/f128_to_i64_r_minMag.c:66-110 | the conversion is truncation toward zero when it fits, all inputs truncating to -2^63 included, and invalid otherwise |
| `F128ToI64.TruncatedMeans` | riscv-pk/softfloat/f128_to_i64_r_minMag.c:60-110 | every input: the truncated number when it is a 64-bit one; otherwise invalid and not inexact, and the bound on the side of the sign, the upper one for a NaN |
| `F128ToI64.ToI64` | riscv-pk/softfloat/f128_to_i64_r_minMag.c:44-112 | the two-word code computes that conversion |
| `F128ToI64.MToI64` | riscv-pk/softfloat/f128M_to_i64_r_minMag.c:55-121 | the limb code computes the same conversion on its exact and plain paths |
| `Htif.FieldsApart` | riscv-pk/machine/htif.h:8-18 | the three fields of a mailbox word read back as written |
| `Htif.CheckKeeps` | riscv-pk/machine/htif.c:23-41 | the assertions of __check_fromhost hold and it stores a character only into an empty buffer |
| `Htif.CallKeeps` | riscv-pk/machine/htif.c:43-83 | sending, resetting and waiting keep the mailbox invariant |
| `Htif.HostKeeps` | riscv-pk/machine/htif.c:43-48 | so does a host that answers each request once |
| `Htif.TryKeeps` | riscv-pk/machine/atomic.h:43-56 | the swap admits one hart at a time |
| `Htif.EveryRunIsSafe` | riscv-pk/machine/htif.c:23-107 | in every interleaving: mutual exclusion, no failed assertion, the console buffer -1 exactly while one read is outstanding, every received character returned once and in order |
| `Htif.EveryRequestIsSent` | riscv-pk/machine/htif.c:43-107 | in every interleaving the host has accepted exactly the characters, system calls and read requests of the calls that have returned, in the order of their return and once each, and those of the one holding the lock, but for the word in tohost |
| `Ipi.Targets` | riscv-pk/machine/mtrap.c:105-107 | the shifting-mask loop visits exactly the harts of the mask in order; what a call sends them is in `IpiCalls` |
| `Ipi.StepKeeps` | riscv-pk/machine/mtrap.c:58-64 | pending events imply that ipi is set, about to be set, held by the recipient, or the recipient is in its handler; once the sender has rung, without the second case |
| `Ipi.NothingLost` | riscv-pk/machine/mtrap.c:97-125 | in every interleaving an event stays pending until the recipient's handler takes it |
| `Ipi.OwedOrTaken` | riscv-pk/machine/mentry.S:74-86 | what a sender posted stays owed until the recipient's handler takes all that is pending |
| `Ipi.LeftBehind` | riscv-pk/machine/mtrap.c:112-118 | when a sender stops waiting for a recipient its own event has been taken since it was posted, or the recipient is about to take it or holds the interrupt |
| `Ipi.OutsideIsInterrupted` | riscv-pk/machine/mtrap.c:120-124 | a recipient outside machine mode with a rung event outstanding has its ipi set |
| `Ipi.BackBeforeHandled` | riscv-pk/machine/mtrap.c:112-118 | a run in which a sender returns while the recipient, itself waiting, has put the interrupt aside |
| `Ipi.BackDuringHandler` | riscv-pk/machine/mentry.S:74-86 | a run in which a sender returns while the recipient is in its handler and has not taken the event |
| `Ipi.AloneClears` | riscv-pk/machine/mtrap.c:112-124 | whatever a hart is doing, its own steps alone clear its ipi unless it is halted or about to take the event that halts it |
| `Ipi.SenderComesBack` | riscv-pk/machine/mtrap.c:97-125 | from every state of the invariant, a sender none of whose recipients is halted or about to be is brought back out of send_ipi_many by some run: harts never wait in a cycle |
| `Ipi.StuckBlocks` | riscv-pk/machine/mtrap.c:112-118 | a recipient that is halted or about to be while its ipi is set keeps every sender that waits for it, in every run |
| `Ipi.BootInv` | riscv-pk/machine/mtrap.c:97-125 | any number of harts with nothing to do satisfy the invariant |
| `IpiCalls.DeedIs` | riscv-pk/machine/mtrap.c:58-64 | what a step of a hart does for others: it makes its event pending at the recipient, or sets its ipi, or reads it as clear; a step without such a deed adds to nothing that is pending and sets no ipi but its own |
| `IpiCalls.CallDoes` | riscv-pk/machine/mtrap.c:97-125 | in every interleaving a caller has, when it waits or is back, posted this event to each hart of the mask that is not disabled and rung it, in order, and to no other; when it is back from anything but a software interrupt it has then seen the ipi of each hart of the mask clear |
| `IpiCalls.ScriptIs` | riscv-pk/machine/mtrap.c:97-125 | so a hart is sent the event if and only if it is in the mask and not disabled |

## Left out

- Recip.ApproxRecip32Ok: states 2.008 units where `softfloat/primitives.h:166-183` promises 2.006; a bound on each step alone gives no better, and everything built on it holds for 2.008.
- F128MRound.RoundToInt: which NaN comes back is not modelled; the outcome says only that one is propagated.
- F128Div.F128Div: does not promise the correctly rounded quotient, because the code does not always deliver it; the exact condition is in `F128Div.DivFinite`.
- VmKernel.Kernel.DoMmap: what is mapped outside user space, once the search leaves it, is not modelled; nor is what any call does after the page tables have reached the records, beyond the loss of records.
- Ipi.NothingLost: what the handler does for an event once it has taken it, other than halting, is not modelled.
- VmKernel.Kernel.VmAlloc: gives up when a request larger than user space finds no room below 2^64, where the source goes on with addresses that wrap.
- VmKernel.Kernel.DoMprotect: stops after the last page of the 64-bit address space, where the source goes on at address 0.
- VmRuns.RunKeeps: is about records that only the calls write, and assumes that no reference count comes near 2^32 and that no request without MAP_FIXED exceeds user space, where the invariant is lost. The page tables share the pool with the records: `VmBoot.RunCalls` runs the calls on that pool.
- VmBoot.RunCalls: opening, duplicating and closing descriptors between the calls is not part of these runs; a mapped file is one that the caller holds throughout. `VmRuns.RunKeeps` has them.
- VmBoot.Boot: the 1 GiB of memory that the source sets is fixed, the size of the stack is any up to 2048 pages, and brk_min, which the ELF loader sets later, is given from the start. A kernel too large for its records is refused, where the source goes on outside the pool.
- PageMap.Map.TakePage: fails at the first record page, where the source clears it.
- PageMap.Map.AllocRecords: fails when the records would not lie in the pool, or when only the root table was allocated before them; the source checks neither, and boot maps the kernel first.
- VmHeap.HeapRunKeeps: excludes MAP_FIXED, which maps where the caller says, and starts after the first brk.
- FdtScan.FilterCompat: the header check and the offsets of `fdt_scan` are not modelled; the buffer is the structure block itself.
- Ipi.SenderComesBack: says that some run brings the sender back, not every one: no fairness is assumed of the harts, and a recipient may be sent to again and again.
- Rounding and packing (`roundPackToF128`, `normRoundPackToF128`, `normRoundPackToF16`) and NaN payloads: results stop at the values handed to them.
- `normSubnormalF128Sig`, `normSubnormalF16Sig` and `shiftRightJam128M` are modelled by value, not bit by bit.
- `SOFTFLOAT_ROUND_ODD` and the `SOFTFLOAT_FAST_*` branches, which the tree does not enable, and with them `f16_div`.
- Square roots, fused multiply-add, extF80, addition, subtraction and comparison wrappers.
- `filter_harts`, `filter_plic`, cell-count inheritance and the device queries of `fdt.c`.
- Requests without MAP_PRIVATE, which `do_mmap` rejects before it does anything, have no step of their own.
- Sub-steps of `file.c` interleaving with each other: `pk` runs one hart. Host-side closing of descriptors.
- TLB flushes, CSR accesses, fences as ordering, the ELF loader, `populate_mapping`, poweroff, printing and system-call dispatch.
- `example/ptrace`, `linux_arch_riscv`, `log_process`: tracing plumbing and statistics, easy members only.
