# Pintos-KAIST demand-paged virtual memory, modelled in Dafny

This project models the virtual-memory layer of a Pintos-KAIST kernel and the
pieces of process setup that feed it. The whole model is in Dafny and is
proved by Dafny's verifier. Nothing is compiled or executed.

What it covers:

- **The supplemental page table (SPT).** The per-process map from page address
  to `struct page` is modelled as the class `Vm.Spt`, with a `map<int, Page>`
  field. Lookup rounds down to the page; insert refuses a taken address.
- **Page allocation.** `vm_alloc_page_with_initializer` registers a pending
  ("uninit") page.
- **Claiming a page.** `vm_claim_page` and `vm_do_claim_page` link a new frame
  to its page and install the mapping in the hardware page table (`Pml4`, a map
  from page address to frame, writable bit and dirty bit). Then they swap the
  page in.
- **The page-fault handler.** Its decision is a pure function
  (`Vm.ClassifyFault`), and its effect is a method (`Vm.TryHandleFault`). The
  decision covers the stack-growth window.
- **The fork copy and the teardown of an SPT**, both loops over the hash
  table's visiting order.
- **The page variants.** The pending page of `vm/uninit.c` and the file-backed
  page of `vm/file.c` have initializers and destroy operations. The variant
  union and its operations table become the datatype `Payload` and a `match`.
- **Memory-mapped files.** `do_mmap` is a loop that registers pending VM_FILE
  pages, with every `size_t`, pointer and `off_t` update wrapping as in C.
  `do_munmap` is the loop that destroys them.
- **The system-call side.** This covers the `mmap` guard chain, `get_file`,
  `seek` and `tell`.
- **Process setup.**
  - ELF segment validation and the read/zero arithmetic of `load`.
  - The VM build of `load_segment`, and `lazy_load_segment`.
  - `argument_stack`, modelled over a byte buffer that stands for the user
    stack.
  - The descriptor table behind `process_add_file`, `process_get_file` and
    `process_close_file`.

The code outside this model appears as an object `Env`, whose state the
methods update:

- the file layer: file contents by handle, file positions and `file_reopen`;
- the user page pool of `palloc`;
- a log of the calls with outside effects: `file_write_at`, `file_close`, the
  `free` of a container or of a struct page, and `palloc_free_page`.

The hash table's iteration order is a parameter (a sequence that lists every
key once).

The model follows the code as written, with one exception: the first guard of
`mmap`. As written, that guard lets an unaligned address through to the
alignment assertion in `do_mmap`. `Syscall.MmapCall` runs the corrected guard,
which refuses such an address, and `Syscall.MmapAdmitsAsWritten` keeps the
guard as written (see Findings).

## Model

| member | source | states |
|---|---|---|
| Vm.Spt.constructor | vm/vm.c:325-328 | a new SPT is empty |
| Vm.Spt.FindPage | vm/vm.c:97-110 | null exactly when no page is filed at pg_round_down(va); otherwise the page found is that SPT's page at pg_round_down(va), and its range contains va |
| Vm.FindPageCoversPage | vm/vm.c:97-110 | every address of a registered page's range finds that very page |
| Vm.Spt.InsertPage | vm/vm.c:114-118 | succeeds exactly when the page's va is not yet a key; on success exactly that key is added, on failure the SPT is unchanged |
| Vm.PageLessTotal | vm/vm.c:418-424 | page_less is irreflexive and asymmetric on an SPT's pages, and two pages neither of which is less are the same page |
| Vm.AllocPageWithInitializer | vm/vm.c:53-92 | false and nothing changed exactly when pg_round_down(upage) is taken; otherwise exactly one new page there: pending, no frame, with the given writable bit, callback, target type, container and the target's initializer |
| Vm.PageGetType | vm/vm.c:28-38 | the type of a pending page is the type it takes once transmuted |
| Vm.GetFrame | vm/vm.c:153-172 | a new frame that belongs to no page; a fresh PGSIZE buffer while the user pool has pages, a null kva once it is exhausted |
| Vm.DoClaimPage | vm/vm.c:306-322 | frame and page linked both ways; if the va was already mapped, nothing is installed, swap_in does not run and the claim fails; otherwise the va maps to the frame with the page's writable bit, clean, and the result is swap_in's |
| Vm.ClaimPage | vm/vm.c:293-301 | the claim of the page registered at va, with the outcome of DoClaimPage |
| Vm.ClassifyFault | vm/vm.c:192-225 | reject a kernel address or a present-page fault; grow the stack exactly for a user address inside USER_STACK - 1 MiB <= rsp - 8 <= addr <= USER_STACK, where rsp is the frame's for a user fault and the thread's otherwise; claim only the page found at addr, and only if a write hits a writable page; a rejection outside the window means no page, or a write to a read-only page |
| Vm.GrowStackWithinLimit | vm/vm.c:207-214 | addresses sent to stack growth, and their pages, lie within 1 MiB below USER_STACK |
| Vm.StackTopFaultGrows | vm/vm.c:212 | the window's bounds are inclusive: a fault at USER_STACK itself grows a page there |
| Vm.LowRspNeverGrows | vm/vm.c:212 | with rsp below 8, the unsigned rsp - 8 wraps, so the fault never grows the stack |
| Vm.StackGrowth | vm/vm.c:176-180 | a writable anonymous page registered at pg_round_down(addr) unless one is there, then the claim of the page at that address, its result dropped |
| Vm.TryHandleFault | vm/vm.c:192-225 | a rejected fault returns false and changes nothing; stack growth returns true whatever it did; otherwise the result and state of claiming the page found, with the SPT unchanged |
| Vm.Destroy | vm/vm.c:425-430 | destroy dispatches on the variant: the calls of uninit_destroy, of file_backed_destroy or none (anonymous); only a file-backed page loses its mapping; other pages' destroy calls are unaffected |
| Vm.HashPageDestroy | vm/vm.c:425-430 | the page's destroy calls, then the free of the struct page; only a file-backed page loses its mapping, and other pages' destroy calls are unaffected |
| Vm.KillStep | vm/vm.c:403 | destroying the next page of the visiting order makes exactly that page's planned calls, its destroy calls then the free of the page, and keeps the kill invariant |
| Vm.HashClear | vm/vm.c:403 | every page, in visiting order, is destroyed and freed once; the calls made are the concatenation of the pages' destroy calls, each followed by the free of its page |
| Vm.KilledAll | vm/vm.c:399-407 | after the last page the page table has lost exactly the file-backed pages |
| Vm.SptKill | vm/vm.c:399-407 | the SPT ends empty, the page table loses exactly the file-backed pages, and the calls are every page's destroy calls and free, in visiting order; files, positions and the user pool are unchanged |
| Vm.Memcpy | vm/vm.c:389 | the child frame holds the parent frame's bytes |
| Vm.RegisterAnon | vm/vm.c:365-370 | vm_alloc_page then vm_claim_page of an anonymous parent page: a new anonymous child page at the same va and writable bit, linked to a fresh frame mapped writable-as-parent and clean; no other SPT entry or mapping changes |
| Vm.CopyAnonPage | vm/vm.c:365-389 | as RegisterAnon, and the child's frame bytes equal the parent's (CopyOf, MapsCopy) |
| Vm.CopyPage | vm/vm.c:344-389 | one iteration: a pending parent gets a pending VM_ANON child with the same callback and a fresh copy of its container, and this step never fails (the re-registration's result is ignored); a file-backed parent gets a pending VM_FILE child without a callback whose new container names the same handle, offset and read count; an anonymous parent is copied as CopyAnonPage does; only the page at the parent's va is added; no call is logged and no file or position changes; the page table changes only at the va of an anonymous parent |
| Vm.CopyStep | vm/vm.c:338-390 | the copy invariant advances by one page of the visiting order; only that key is added; the child page table changes only at that key, and only for an anonymous parent; the call log, files and positions are unchanged |
| Vm.CopyLoop | vm/vm.c:338-390 | the child's old pages are kept, each page added is fresh and at a parent key, the page table changes only at anonymous parent vas, the call log, files and positions are unchanged; on true every parent page has been visited and copied |
| Vm.CopiedAll | vm/vm.c:391 | after the last page every parent page has its copy in the child |
| Vm.SptCopy | vm/vm.c:333-392 | existing child pages are kept and every page added is a fresh page for a parent key; the child page table changes only at the vas of anonymous parent pages; no call is logged and files, positions and handles are unchanged; on true every parent page is in the child, each page the copy added is the CopyOf of its parent, and an anonymous copy is mapped in the child's page table |
| Uninit.UninitNew | vm/uninit.c:27-43 | the page is overwritten whole: pending with the given va, callback, type, container and initializer, no frame, every other member zero |
| Uninit.Transmuted | vm/uninit.c:51-62 | a pending payload becomes file-backed exactly when its initializer is the file initializer, and then takes the type its target names |
| Uninit.UninitInitialize | vm/uninit.c:51-62 | the payload becomes Transmuted of the old payload and container; the lazy-load callback runs on the container fetched before the initializer rewrote the page, with LazyLoadSegment's outcome; without a callback nothing else changes |
| Uninit.UninitDestroyCalls | vm/uninit.c:75-99 | the container's file is closed first, only for a VM_FILE target; the container is freed last, exactly once if present |
| Uninit.UninitDestroy | vm/uninit.c:75-99 | nothing for a null page; otherwise exactly the calls of UninitDestroyCalls |
| FilePage.FileBackedInitializer | vm/file.c:30-42 | the page becomes file-backed with the container's file, offset and read count (zero_bytes not copied), everything else kept, result true |
| FilePage.FileBackedDestroy | vm/file.c:62-71 | a dirty page writes its first read_bytes frame bytes back at its offset, a clean page writes nothing; the mapping of its va is always removed and no other is touched |
| LazyLoad.LazyLoadSegment | userprog/process.c:679-703 | the frame holds what file_read_at returned; on a full read then zeros to PGSIZE, with true; on a short read the old content after the partial bytes, the frame freed, with false; the file position moves past what was read |
| LazyLoad.LoadedBytes | userprog/process.c:690-702 | after a successful load, byte i of the frame is file byte offset + i below read_bytes and 0 from there to the page end |
| Mmap.TotalPageCountRounding | vm/file.c:93 | total_page_cnt equals the length rounded up to pages exactly when bit 12 of the length says whether there is a partial page; a mapping shorter than a page gets 0, one of exactly PGSIZE gets 2 |
| Mmap.UpageAtIs | vm/file.c:126 | the k-th page address is start + k * PGSIZE modulo 2^64, page-aligned with start |
| Mmap.OffsetAtIs | vm/file.c:128 | the k-th offset is offset + k * page_read_bytes wrapped to an int |
| Mmap.ReadAtIs | vm/file.c:122 | read_bytes after k pages is its first value less k page_read_bytes, modulo 2^64 |
| Mmap.ZeroAtIs | vm/file.c:124 | zero_bytes after k pages is its first value less k page_zero_bytes, modulo 2^64 |
| Mmap.UpagesAt | vm/file.c:126 | the k-th registered page sits at start + k * PGSIZE modulo 2^64 |
| Mmap.OffsetsAt | vm/file.c:128 | the k-th registered page is given offset + k * page_read_bytes |
| Mmap.UpagesDistinct | vm/file.c:101-129 | fewer than 2^52 iterations never revisit a page |
| Mmap.UpageFullCircle | vm/file.c:126 | after 2^52 iterations the address is back at the start, which is taken; this bounds the loop |
| Mmap.MmapLoopExit | vm/file.c:101 | the loop ends with both counters zero only after its first iteration, for a length below PGSIZE that the file holds entirely |
| Mmap.MmapOnePage | vm/file.c:96-124 | such a mapping has both counters at zero after one page |
| Mmap.MapPage | vm/file.c:104-118 | iteration k's page: pending VM_FILE with lazy_load_segment, a new container holding the reopened file, the page's offset, the whole length as read count and PGSIZE - page_read_bytes as zero count, stamped with total_page_cnt; nothing else changes |
| Mmap.MmapAdvance | vm/file.c:121-128 | the counter, address and offset updates give the next iteration's values |
| Mmap.MmapStep | vm/file.c:103-128 | a free page is registered and the loop variables advance |
| Mmap.MmapTakenFails | vm/file.c:103 | the address the loop stopped at is taken, and if nothing was registered yet it was taken before the call |
| Mmap.MmapDone | vm/file.c:101 | both counters at zero: one page, for a short mapping the file holds, at a free address |
| Mmap.MmapLoop | vm/file.c:101-131 | registered pages form a run of pages that were free, at start + k * PGSIZE with advancing offsets, and none is removed on failure; returns start exactly when the length is below PGSIZE, the file holds it all and start is free, then with one page; otherwise NULL, at the address just past the run, which is taken |
| Mmap.DoMmap | vm/file.c:78-132 | reopens the file once, and every page refers to the one new handle at position 0; success, with addr and exactly one page, exactly when the length is below PGSIZE, the file holds it all and addr is free; on NULL the run of pages stops at the first taken address |
| Mmap.UnmapKeyAt | vm/file.c:157-158 | the page looked up after k address steps is pg_round_down(addr) + k pages |
| Mmap.UnmapStep | vm/file.c:155-159 | one iteration destroys the page at the current address if there is one, then steps the address and looks it up |
| Mmap.UnmapLoop | vm/file.c:155-159 | count iterations, each destroying the page at its address if any, the calls made in order |
| Mmap.UnmappedAll | vm/file.c:155-159 | after the loop the page table has lost exactly the file-backed pages of the run |
| Mmap.DoMunmap | vm/file.c:151-160 | destroys the pages at the mapped_page_count addresses from the page at addr, skipping missing ones, without removing SPT entries; the mappings lost are exactly the file-backed pages of that run |
| Mmap.MunmapAfterMmap | vm/file.c:93 | a page do_mmap registered successfully has count 0, so do_munmap at its address visits nothing |
| ElfLoad.ValidateSegmentIff | userprog/process.c:532-571 | validate_segment accepts exactly: equal file and memory page offsets, a start within the file, 0 < memsz with filesz <= memsz, and the true memory range within user space from PGSIZE, without wrapping |
| ElfLoad.PlanSegmentSums | userprog/process.c:483-501 | read_bytes + zero_bytes is ROUND_UP(page_offset + memsz, PGSIZE), a whole number of pages; read_bytes is page_offset + filesz, or 0 when filesz is 0; both pages aligned |
| ElfLoad.PlanSegmentInUserSpace | userprog/process.c:486-501 | the pages a valid segment touches lie in user space from PGSIZE on |
| ElfLoad.PageReadsPartition | userprog/process.c:733-759 | the pages read the segment's bytes in turn, and together read all of them |
| ElfLoad.LoadOfsAtIs | userprog/process.c:759 | ofs of page k is ofs plus the earlier pages' reads, wrapped to an off_t |
| ElfLoad.LoadOffsetsAt | userprog/process.c:733-759 | page j reads min(PGSIZE, what is left of read_bytes), from ofs plus the earlier pages' reads |
| ElfLoad.LoadAdvance | userprog/process.c:733-759 | neither unsigned counter goes below zero, and the updates give the next iteration's values |
| ElfLoad.RegisterSegmentPage | userprog/process.c:738-749 | iteration k's page: pending VM_ANON with lazy_load_segment and a container of file, offset, page_read_bytes and page_zero_bytes; false and nothing changed when the page is taken |
| ElfLoad.LoadStep | userprog/process.c:733-759 | one iteration: the page is registered or the step fails, and the run and variables advance |
| ElfLoad.LoadSegment | userprog/process.c:723-761 | true exactly when all (read_bytes + zero_bytes) / PGSIZE pages from upage are free, and then each is registered with its offset and read count; otherwise it stops at the first taken page, keeping the pages before it |
| ElfLoad.LoadFailed | userprog/process.c:746-749 | a run halted at a taken page means not every page of the segment was free |
| ElfLoad.LoadDone | userprog/process.c:733-760 | a run covering the whole segment found every page free |
| ArgStack.ImageLayout | userprog/process.c:790-833 | the written region runs from the final rsp up to the old rsp, and the final rsp is a multiple of 8 |
| ArgStack.PtrsFromAt | userprog/process.c:817-826 | the pointer words, from argv_addr[i] up, each hold their string's address, the last the NULL sentinel |
| ArgStack.ImageWordAt | userprog/process.c:817-826 | word j above the return slot is argv_addr[j], and word argc is NULL |
| ArgStack.ImageStringAt | userprog/process.c:798-803 | the bytes of argv[j] lie at their address in the image |
| ArgStack.ImageStringNul | userprog/process.c:799-801 | each string is followed by its NUL |
| ArgStack.ImageStringBounds | userprog/process.c:798-803 | each string and its NUL lie inside the image |
| ArgStack.StrIndexIs | userprog/process.c:802 | argv[j]'s place in the image is argv_addr[j] relative to the final rsp |
| ArgStack.ImageReturnSlot | userprog/process.c:831-832 | the 8 bytes at the final rsp are zero |
| ArgStack.ArgvPointerValue | userprog/process.c:817-826 | read as a little-endian 64-bit value, word j is the address of argv[j] |
| ArgStack.DecodeLEBytes | userprog/process.c:824 | memcpy of an 8-byte address and reading it back gives the address |
| ArgStack.PushStrings | userprog/process.c:798-803 | rsp drops by the strings' total size; the region above holds argv[0]..argv[argc-1] in that order, each with its NUL; argv_addr[i] is where argv[i] landed |
| ArgStack.PadToWord | userprog/process.c:810-813 | zero bytes pushed until rsp is a multiple of 8 |
| ArgStack.PushPointers | userprog/process.c:817-826 | 8(argc + 1) bytes pushed: argv_addr[0] lowest, up to the NULL sentinel |
| ArgStack.ArgumentStack | userprog/process.c:790-833 | rsp ends at FinalRsp, rsi is 8 above it (argv_addr[0]'s word), rdi is argc, the stack from rsp up holds exactly the image, and the rest of the buffer is unchanged |
| FdTable.LowestFree | userprog/process.c:851-858 | -1 or an empty slot in from..127 |
| FdTable.LowestFreeIsLowest | userprog/process.c:851-858 | every slot below the one found is taken, and -1 exactly when all of 2..127 are |
| FdTable.SlotOf | userprog/process.c:861-866 | a lookup over descriptors 2..last finds exactly the table slot inside that range and nothing outside it; process_get_file uses last 127, get_file 128 |
| FdTable.AddThenGet | userprog/process.c:846-866 | after add, get of the new descriptor reads back the file, and every other descriptor reads what it did before |
| FdTable.FileTable.constructor | userprog/process.c:846-859 | the table that process_add_file searches, with every slot empty and cur_fd 2; thread creation allocates it and is not part of this model |
| FdTable.FileTable.GetFile | userprog/process.c:861-866 | NULL outside 2..127, otherwise the slot |
| FdTable.FileTable.AddFile | userprog/process.c:846-859 | the lowest empty slot in 2..127 takes the file, and its descriptor is returned and becomes cur_fd; -1 with the table unchanged when all are taken |
| FdTable.FileTable.CloseFile | userprog/process.c:869-879 | for a filled slot in 2..127 only that slot is emptied and its file closed; otherwise nothing |
| Syscall.GetFile | userprog/syscall.c:317-321 | NULL outside 2..128, otherwise the slot; it agrees with process_get_file except at 128 |
| Syscall.Tell | userprog/syscall.c:244-251 | nothing defined outside 2..128; the found file's position, or 0 for an empty slot |
| Syscall.Seek | userprog/syscall.c:234-242 | only when the descriptor is in range with a file does that file's position become position, and tell then reads it back; otherwise nothing changes |
| Syscall.OffsetAligned | userprog/syscall.c:347 | the off_t test offset != pg_round_down(offset) is offset % PGSIZE != 0, negative offsets included |
| Syscall.MmapAdmitsIff | userprog/syscall.c:338-357 | the corrected guards pass exactly for a page-aligned user addr from PGSIZE on, a user end addr + length, an aligned offset, a free page, fd in 2..128 holding a non-empty file, and (int) length > 0 |
| Syscall.MmapAdmitsUnaligned | userprog/syscall.c:340 | addr 0x1001 passes the guards as written but not the corrected ones |
| Syscall.MmapCall | userprog/syscall.c:335-361 | runs the corrected guard chain MmapAdmits (addr must be page-aligned): NULL with nothing changed unless every guard passes; otherwise exactly do_mmap on the file in the slot |

## Left out

- Concurrency, interrupts and `thread_current()`. The current thread's SPT, page table and descriptor table are explicit parameters.
- `vm/anon.c` is not part of this model. Its `anon_initializer` is modelled as "the page becomes anonymous, true", and `anon_destroy` makes no calls.
- The swap-in of an anonymous or file-backed page is the parameter `stubOk`. `file_backed_swap_in` has no return statement, and anon.c is absent. Eviction and swap (`vm_get_victim`, `vm_evict_frame`, `file_backed_swap_out`) are stubs in the source and are absent.
- Failures of `malloc` (a frame, a container, a page) and of `file_reopen` are not modelled. Every allocation succeeds.
- `pml4_set_page` is modelled without its own allocation failure (`pml4e_walk`).
- Vm.DoClaimPage: a null kva from an exhausted pool reaching `pml4_set_page` is an assertion failure in the source. A free frame is a precondition unless the va is already mapped.
- Vm.DoClaimPage: the page's va must be a user address, which is `pml4_set_page`'s own assertion in a file not part of this model. A pending page with the lazy-load callback must have a container with a known file and a non-negative offset; a negative offset fails `file_seek`'s assertion.
- Vm.TryHandleFault, Vm.StackGrowth, Vm.SptCopy: the same holds on these claim paths, so a free user page for each claim is a precondition (for SptCopy, one per anonymous parent page).
- Vm.SptCopy: every parent page must be ready to copy (CopyReady). A pending page must have a container, because the container is memcpy'd without a check. One such case is a stack page that a failed claim in `vm_stack_growth` left pending with a NULL container. An anonymous page must have a frame and a user va. These rule out NULL dereferences and assertion failures in the source.
- Vm.ClaimPage: the source's `if (page == NULL) false;` does not return, and the NULL would be dereferenced. A registered page is a precondition.
- Mmap.DoMunmap: `do_munmap` dereferences the page at addr without a check. A page there is a precondition.
- Syscall.MmapCall: it runs the corrected guard chain. An unaligned addr from PGSIZE on, which the code as written passes to do_mmap's assertion, gets NULL here (see Findings).
- `munmap` (userprog/syscall.c:363-365) only forwards to do_munmap, and has no member of its own.
- The hash table's internals are not modelled. Its iteration order is a parameter, and `page_hash` is not modelled.
- `file_write_at` during a write-back is recorded in the call log, not applied to the file contents.
- `supplemental_page_table_copy` is modelled with the quirks of the code as written:
  - A pending parent page is re-registered as VM_ANON, whatever its target, and a failure is ignored.
  - The copy of a file-backed page gets `zero_bytes` from a payload that never stores it. It is 0 here.
  - A child page's `mapped_page_count` is 0.
- Mmap.DoMmap: both counters reach zero together only for a mapping shorter than a page that the file holds entirely. In every other case, including a one-page mapping whose file is shorter than `length`, `read_bytes` wraps around 2^64 and the counters never both reach zero. The loop then ends only by returning NULL at a taken page (a failed malloc is not modelled). The model proves it reaches its own first page again after 2^52 iterations at most.
- LazyLoad.LazyLoadSegment: requires read_bytes <= PGSIZE. A larger count, which do_mmap stores for a mapping of a page or more, would overrun the frame in the source.
- ElfLoad.LoadSegment: `upage + read_bytes + zero_bytes` fitting in 64 bits is a precondition. load guarantees it through validate_segment.
- ElfLoad.PlanSegmentSums: it is stated for segments below 4 GiB of pages. Above that the uint32_t counts wrap, and that case is not modelled.
- The ELF file reading of `load` (opening, reading headers, seeking) is left out. A segment is a program header value and a file length.
- ArgStack.ArgumentStack: that the buffer holds the whole image is a precondition. argc is |argv|, and strlen is the length of an argument without an interior NUL (NoNul).
- Syscall.Tell: for an fd out of range the source returns no value at all. The model gives None.
- Syscall.Seek: `file_seek` is modelled as setting the position. The conversion of the unsigned position to off_t is not modelled.
- FdTable.FileTable.constructor: the table is allocated, and cur_fd first set, during thread creation, which is not part of this model. The model takes an all-empty table with cur_fd 2.
- The descriptor table's size (FDT_PAGES) is not defined in the source files here. The model takes more than 128 slots, so `get_file` at 128 reads a slot that `process_add_file` never fills.
- `process_exit_file`, the process lifecycle, `setup_stack`, the non-VM build and the remaining system calls are left out. They are thread creation, console and file-system I/O, or an inactive build variant.
- `writable` is a bool, where the C code passes an int.

## Findings

| source | as written | input that shows it | evidently intended | confidence | as-written member | corrected member |
|---|---|---|---|---|---|---|
| userprog/syscall.c:340 | `if(addr == NULL \|\| !pg_round_down(addr)) return NULL;` rejects only an addr below PGSIZE, although its comment says "NULL or not page-aligned"; an unaligned addr reaches do_mmap, whose `ASSERT(pg_ofs(addr) == 0)` (vm/file.c:99) then panics the kernel | addr = 0x1001, length = 1, fd 2 holding a one-byte file, offset 0, nothing mapped | reject an addr with pg_round_down(addr) != addr | not executed | Syscall.MmapAdmitsAsWritten, Syscall.MmapAdmitsUnaligned | Syscall.MmapAdmits, Syscall.MmapAdmitsIff |
