# A verified model of the kernel

This project models the parts of a small x86-64 teaching kernel that hold state, and proves what they keep. The kernel
boots from stivale2, manages physical frames and four-level page tables, loads ELF programs, serves a few system
calls, and drives a keyboard and a text terminal. Run `dafny verify dfyconfig.toml` to check all of it.

## What is modelled

**Frames and page tables.** Physical memory is an array of 64-bit cells, 512 to a frame. A cell is kept as the bit
fields of a page-table entry and can equally be read as a number or as eight bytes, so a freelist link and entry 0 of
a table really are the same cell. `Memory` has the freelist, `Mapping` has `vm_map`, `vm_unmap` and `vm_protect`,
`UnmapLowerHalf` has `unmap_lower_half`, each as a function of the machine state. `PageTree` names every table and
page by the indices that lead to it and states the invariant `Inv`: in the lower half each frame is reached by one
path only, nothing reachable is on the freelist, and free, owned and leaked frames partition a fixed pool.
`AddressSpace` gives the simple view, a partial map from pages to frames and rights, and shows that each operation is
one update of it. `UpperHalf` has the same operations on upper-half addresses, where the boot loader's tables may be
shared and map large pages. `FrameDemand` counts the frames that mapping a set of pages takes. `PagingRuns` takes this
to whole runs. `Pager` is the code that updates memory in place; each method is proved equal to the function, and may
only load from frames that are not on the freelist. `Boot` builds the pool.

**The layers above.** `Mmap` is the page bump allocator, `Malloc` the byte bump allocator over it, `Loader` and `Exec`
the ELF loader. `ElfFile` has the file format apart from the loader: what bytes a header and a table are written as.
`PageRanges` has what mapping a range of pages does, `VirtualBytes` reads and writes bytes through the page tables.
`Kernel` puts boot, loading and the heap together.

**Devices and text.** `KeyQueue` is the ring buffer between the keyboard interrupt and `kgetc`, as a machine in which
interrupts may come between any two steps. `ScanCodes` turns scan codes into characters and has the keyboard layout,
`Keyboard` is the driver's code, `ReadEdit` the line-editing `sys_read`. `Terminal` is the scrolling screen, `Numbers`
prints and reads numbers, `Strings` has the string routines.

Inputs that come from outside are parameters: the root table (CR3), the boot loader's memory map and modules, the scan
codes and the moments they arrive.

## Where the code and its comments disagree

The model follows the code in each case.

- The last argument of `vm_map` and `vm_protect` is called `executable` and documented as such, but is stored as the
  no-execute bit (kernel/page.c:295, 390). So the user stack, commented as not executable, is executable.
- `sys_mmap` disregards `prot` and takes the page rights from `flags` (kernel/syscall_def.c:99), which its comment
  says are disregarded.
- `sys_mmap` at a fixed address maps that one page again in its second round, so any longer request fails
  (`Mmap.FixedAddressMapsOnePage` has the exact condition).
- `malloc` tests the result of `mmap` for NULL, but a failed `mmap` returns -1, so a failed request returns the
  address 2^64 - 1. `bump` then wraps around: for a size rounded to n, later requests are cut from the addresses from
  n - 1 on, up to the length that was wanted, less one (`Malloc.FailedRequest`, `Malloc.FailureIsNotNoticed`). Nothing
  was mapped there for the heap, but those may be pages of the program itself, of any of its pages
  (`Kernel.FailureHandsOutAnyPage`; `Kernel.HeapLeavesTheImage` has the exact condition). From an empty heap every
  block is usable exactly when every refill succeeded (`Malloc.BlocksAreUsableIff`). Sizes near 2^64 wrap around to 0
  and are answered with no bytes (`Malloc.UsableIff`).
- `vm_map`, `vm_unmap` and `vm_protect` take a large page for a table (`UpperHalf.LargePageIsTakenForATable`,
  `UpperHalf.HugePageIsTakenForATable`), and `vm_unmap` frees whatever frame an upper-half page has
  (`UpperHalf.UpperUnmap` says when that is safe). `sys_mmap` does not check a fixed address, so a program can pass an
  upper-half one.
- The loader gives only the first page of a segment the rights the segment asks for (kernel/loader.c:83); the other
  pages stay kernel-only, writable and not executable, so a segment gets its rights exactly when it fits one page
  (`Loader.RightsAreGrantedIff`).
- The loader ignores a failed `vm_map` of the stack (kernel/loader.c:94), so a program may be entered with part of its
  stack, or none of it. `Loader.ExecBuildsTheImage` says exactly when the stack is whole.
- `run_exec_elf` clears the caller's lower half before it looks at the file's type and at whether its segments can be
  loaded, so of its errors only -1 leaves the caller's pages mapped (`Loader.ExecBuildsTheImage`).
- `sys_read` echoes a backspace that takes nothing back, and that erases what stood on the screen before the line
  (`ReadEdit.EchoIsTheText`).
- A loadable segment at address 0 is meant to be skipped, but the header pointer is not moved on, so loading ends
  there (`Loader.NullHeaderEndsLoading`).
- `memcpy` does not say that its regions must not overlap in one direction (`Strings.CopyIsMoveIff`). Scrolling
  depends on the direction that works.

## Model

| member | source | states |
|---|---|---|
| Words.BitsOfBits | kernel/page.c:17-30 | A 64-bit number stored in a cell reads back as the same number |
| Words.OfBitsBits | kernel/page.c:17-30 | The bit fields of a cell are recovered from its 64-bit number |
| Words.FieldPositions | kernel/page.c:17-30 | The number is the sum of the fields at their bit positions: present 0, writable 1, user 2, up to page size 7, four unused bits, the address from bit 12 on, no-execute 63 |
| Memory.LinkIsAddress | kernel/page.c:9-11 | A freelist link, read as a number, is the next frame's address, and back |
| Memory.ChainHasNoDuplicates | kernel/page.c:206-236 | A freelist that ends has no cycle and no frame twice |
| Memory.ChainIsUnique | kernel/page.c:14 | The state determines the freelist |
| Memory.AllocPops | kernel/page.c:206-214 | pmem_alloc returns the front frame and leaves the rest, writing no memory; 0 when the list is empty |
| Memory.FreePushes | kernel/page.c:220-236 | pmem_free of a frame not on the list puts it in front and writes only its first cell |
| Memory.FreeIsSafeIffNotFree | kernel/page.c:220-236 | After pmem_free the freelist is a finite list exactly when the frame was not on it already |
| TreeEdits.InstallEdits | kernel/page.c:286-296 | Clearing a free frame and entering it in a table changes that one entry of the whole tree and no other |
| TreeEdits.UnclearedFrameShowsThrough | kernel/page.c:290 | Without the clearing, every old cell of the frame that looks present would be a mapping at once |
| TreeEdits.InstallKeepsTree | kernel/page.c:286-296 | The new table or page is reached by its path only and leaves the freelist |
| Mapping.MapFromSpec | kernel/page.c:277-309 | vm_map of a lower-half address from any table on the way down: frames used, pages kept, invariant kept. Each entry that is filled on the way is, for a table, present, user, writable and executable, for the page, present with the rights asked for; it names the frame taken; its seven other fields read as in that cell before, and are clear in a table this call installed. Every entry off the way reads as before |
| Mapping.UnmapFromSpec | kernel/page.c:334-354 | vm_unmap of a lower-half address from any table on the way down: the page's entry is as before but not present, and no other entry changes |
| Mapping.ProtectFromSpec | kernel/page.c:382-397 | vm_protect of a lower-half address from any table on the way down: the page's entry is as before but for its three rights bits, and no other entry changes |
| UnmapLowerHalf.FreeL3sSpec | kernel/page.c:82-117 | At every point of the three nested loops the freelist is what the tables read at the start say, and no table still to be read has been freed |
| UnmapLowerHalf.FreedAreTheTables | kernel/page.c:79-121 | Exactly the lower-half level 1, 2 and 3 tables are freed, each once, in front of the old freelist; pages and large pages are not |
| UnmapLowerHalf.UnmapLowerSpec | kernel/page.c:79-121 | Afterwards nothing is mapped in the lower half: its root entries are as before but not present, there is no entry below them, and upper-half entries read as before |
| UnmapLowerHalf.UnmapLowerKeepsInv | kernel/page.c:79-121 | The pool is conserved: tables become free, mapped pages become leaked |
| UnmapLowerHalf.FirstUnmapFoundsInv | kernel/boot.c:264-267 | The first call at boot establishes the invariant even if the boot loader's lower-half pages alias |
| AddressSpace.PageNumbers | kernel/page.c:266-272 | Lower-half page numbers and four-index paths are in bijection; bits 0-11 and 48-63 of an address do not matter |
| AddressSpace.EveryPageHasANumber | kernel/page.c:266-272 | Every path to a page is the path of some page number |
| AddressSpace.MapRefines | kernel/page.c:262-310 | In the lower half vm_map inserts one fresh clear page with the given bits; it succeeds exactly when the page was unmapped and the freelist held the missing tables and one more; on failure no translation changes. The entries filled on the way hold the frames taken and the rights due at their level; their other fields, page size among them, read as before, and are clear in new tables |
| AddressSpace.UnmapRefines | kernel/page.c:318-355 | In the lower half vm_unmap removes one page and puts its frame in front of the freelist; the entry changes in its present bit only; it fails exactly when the page is not mapped |
| AddressSpace.ProtectRefines | kernel/page.c:366-398 | In the lower half vm_protect changes the rights of one page, and of its entry nothing else; no page moves and no content changes |
| AddressSpace.UnmapLowerRefines | kernel/page.c:79-121 | unmap_lower_half empties the map and keeps the invariant |
| AddressSpace.StoreRefines | kernel/page.c:262-310 | A store through a mapped page changes that cell only and no translation |
| AddressSpace.MapThenUnmap | kernel/page.c:262-355 | In the lower half vm_map then vm_unmap restores the map; the freelist loses exactly the installed tables, and is restored in order when none was missing |
| AddressSpace.RightsAreThePages | kernel/page.c:291-296 | The rights combined over all four levels are the page entry's own bits |
| UpperHalf.UpperMap | kernel/page.c:262-310 | On an upper-half address with only tables on its way vm_map succeeds under the same condition and maps a clear page. Every existing path and present entry of both halves stays as it was; any new path leads to a frame just taken; one entry and those frames are all that is written. The entries filled on the way are as in the lower half, with every field not written as before |
| UpperHalf.UpperProtect | kernel/page.c:366-398 | There vm_protect changes the rights in the page's entry, also for the other paths that share its table; no path of either half moves, no other entry and no page changes; it fails exactly when the page is not mapped |
| UpperHalf.UpperUnmap | kernel/page.c:318-355 | There vm_unmap keeps the invariant exactly when the frame it frees is neither free nor in use once the entry is absent; then exactly the paths through that entry are gone and all others are as they were; the entry is as before but not present |
| UpperHalf.FreeKeepsInvIff | kernel/page.c:220-236 | pmem_free keeps the invariant exactly for NULL and for frames of memory that are neither free nor in use |
| UpperHalf.LargePageIsTakenForATable | kernel/page.c:280-296 | Where a 2 MiB page is met instead of a table, vm_map writes an entry into the page, and succeeds, exactly when the cell there does not look present and a frame is free |
| UpperHalf.HugePageIsTakenForATable | kernel/page.c:280-305 | Where a 1 GiB page is met, an absent-looking cell is filled exactly when a frame is free, and a present-looking one is followed as if to a table |
| UpperHalf.AnyMap | kernel/page.c:262-310 | In either half vm_map succeeds exactly when something is missing and the freelist holds all of it; the page then has the rights asked for, and no lower-half page has changed or come up with others; a mapped page cannot be mapped again, and trying changes nothing |
| FrameDemand.MissingIsDemand | kernel/page.c:280-288 | vm_map takes one frame for each table or page that is missing on the way |
| FrameDemand.MapGrowsBy | kernel/page.c:286-305 | A successful vm_map installs exactly those |
| FrameDemand.DemandAdds | kernel/page.c:286-288 | Mapping some pages and then others takes as many frames as mapping all of them |
| PagingRuns.RunKeepsInv | kernel/page.c:79-398 | Any run of operations in either half, each safe where it is made, and of stores keeps the invariant, and no lower-half entry gains a bit other than present, its frame and its rights; runs on the lower half keep the pool and the upper half, and leaked frames only grow |
| PagingRuns.LowerRunsAreLegal | kernel/page.c:79-398 | Every run of operations on lower-half addresses is safe |
| PagingRuns.RunsOnTheMap | kernel/page.c:79-398 | Every step of every such run is a step of the plain map from pages to frames and rights: vm_map inserts one clear page with the rights asked for if the freelist suffices, vm_unmap removes one, vm_protect rewrites the rights of one, unmap_lower_half empties it, and a store changes one cell; every other page keeps its content |
| PagingRuns.LeaksExactlyThePages | kernel/page.c:79-121 | In the lower half only unmap_lower_half leaks, and exactly the frames of the pages mapped at that moment; mapping in the upper half takes exactly the frames it needs |
| PagingRuns.EveryRunIsSafe | kernel/page.c:79-398 | From boot on, in every state: no cycle or repetition on the freelist, one path per lower-half frame, nothing both free and in use, frames conserved, and no page-size, reserved or other extra bit in a level 3, 2 or 1 entry of the lower half (nor a new one in level 4); runs on the lower half need no condition |
| Pager.FrameManager.PmemAlloc | kernel/page.c:206-214 | The method that updates memory does what Alloc says |
| Pager.FrameManager.PmemFree | kernel/page.c:220-236 | The method does what Free says; NULL and unaligned addresses are refused |
| Pager.FrameManager.FillEntry | kernel/page.c:289-296 | The new page is cleared before the entry that leads to it is written; the entry is present, names the page and has the rights due at its level, and its other fields stay |
| Pager.FrameManager.MapRound | kernel/page.c:278-306 | One round of the loop descends, fails, or fills the entry and descends |
| Pager.FrameManager.VmMap | kernel/page.c:262-310 | The method does what MapFrom says, hence one insertion in the lower half; in either half every other translation and present entry is as before, and the entries filled on the way keep the fields that are not written |
| Pager.FrameManager.RemoveEntry | kernel/page.c:347-351 | The entry is marked absent and its frame is freed |
| Pager.FrameManager.VmUnmap | kernel/page.c:318-355 | The method does what UnmapFrom says, hence one removal in the lower half, of the present bit of one entry; in the upper half exactly the paths through the removed entry are gone |
| Pager.FrameManager.VmProtect | kernel/page.c:366-398 | The method does what ProtectFrom says, hence in either half one change of rights that moves no translation and changes no other field |
| Pager.FrameManager.FreeL1Tables | kernel/page.c:99-107 | The innermost loop frees the level 1 tables of one level 2 table |
| Pager.FrameManager.FreeL2Tables | kernel/page.c:92-112 | The middle loop frees the level 2 tables of one level 3 table and what they lead to |
| Pager.FrameManager.FreeL3Table | kernel/page.c:85-116 | A level 4 entry is marked absent and what it led to is freed |
| Pager.FrameManager.UnmapLowerHalf | kernel/page.c:79-121 | The nested loops do what UnmapLower says, and never load from a freed table |
| Pager.FrameManager.ClearLowerHalf | kernel/page.c:79-121 | On a valid address space the map is empty afterwards |
| Boot.RangeMembers | kernel/page.c:192-195 | One section contributes its whole pages, without page 0, if it starts on a page boundary |
| Boot.SectionMembers | kernel/page.c:186-200 | The sections contribute exactly their pages |
| Boot.FreeSectionsSpec | kernel/page.c:186-200 | Freeing disjoint sections builds a freelist and leaves the page tables a tree apart from it |
| Boot.BootBuildsThePool | kernel/boot.c:207-225 | The freelist holds exactly the nonzero whole pages of the usable entries, each once |
| Boot.GetMemAddress | kernel/boot.c:127-146 | Start and end of each usable entry, in turn |
| Boot.FreelistInit | kernel/page.c:186-200 | The method does what FreeSections says |
| Boot.SplitAddresses | kernel/boot.c:216-221 | Start and end addresses are separated in order |
| Boot.MemInit | kernel/boot.c:207-225 | mem_init leaves exactly those pages on the freelist, for at most five usable entries |
| PageRanges.MapPage | kernel/page.c:262-310 | Mapping a page keeps every mapped page's frame, rights and content, takes exactly the frames of what is missing, and says when it refuses |
| PageRanges.CanMapRest | kernel/page.c:262-310 | After some pages were mapped others can be mapped exactly when all of them could have been |
| Mmap.MmapSpec | kernel/syscall_def.c:92-108 | A NULL-address call of any length maps consecutive fresh pages from mmap_next_start, all of ceil(length/4096) on success; it advances by the pages it mapped, also on failure; it succeeds exactly when none of its pages is mapped and the freelist holds what is missing for all of them. Each page mapped is a user page, writable exactly when flags mod 4 is 2 or 3, not executable exactly when flags is even; no other page changes |
| Mmap.FixedAddressMapsOnePage | kernel/syscall_def.c:97-107 | A fixed-address call, in either half and of any length below 2^63, does what one vm_map of the address does, and the page has the rights that its flags grant; it succeeds exactly when that does and the length fits one page; mmap_next_start advances even if a longer call fails |
| Mmap.GrantedBits | kernel/syscall_def.c:99 | With flags = 4q + 2w + x the grant is: a user page, writable exactly when w is 1 and executable exactly when x is 1 |
| Mmap.NextAdvances | kernel/syscall_def.c:103-107 | mmap_next_start never goes back, and advances by all the pages on success |
| Mmap.BlocksAreDisjoint | kernel/syscall_def.c:86-109 | Whatever happens in between, results of successful NULL-address calls never overlap |
| Mmap.MmapCalls.SysMmap | kernel/syscall_def.c:86-109 | The method does what MmapFrom says; -1 on failure and for length 0; when a NULL-address call succeeds, and that it then returns new pages that all have what the flags grant. Whatever the call and its outcome, no page comes up with other rights, and a page mapped at the first address has those |
| Malloc.RefillMaps | stdlib/stdlib.c:39-51 | A successful refill maps the whole new region, for the user to read, write and execute, and keeps what was mapped |
| Malloc.RefillSucceedsIff | stdlib/stdlib.c:41-42 | A refill succeeds exactly when its length has not wrapped around, none of its pages is mapped, and the freelist holds what is missing for them |
| Malloc.MallocKeepsHeapOk | stdlib/stdlib.c:34-59 | A request issues a 16-byte aligned block apart from all others and from what is unissued. Every byte of blocks and unissued space lies in a page to which the entries of all four levels grant user access, writing and execution |
| Malloc.EveryHeapRunIsOk | stdlib/stdlib.c:27-59 | So does every run of requests from an empty heap whose mmaps succeed, and every byte issued is usable in that sense |
| Malloc.UsableIff | stdlib/stdlib.c:34-59 | Until a request has failed, the program may use (user, write) the bytes it asked for exactly when the size does not wrap around and no mmap was needed or the refill can succeed; -1 is returned exactly when mmap failed |
| Malloc.BlocksAreUsableIff | stdlib/stdlib.c:34-59 | From an empty heap the program may use every block of a run exactly when every refill on the way succeeded |
| Malloc.FailedRequest | stdlib/stdlib.c:42-56 | After a request whose mmap failed, rounded to n bytes, the heap starts at n - 1 and ends one short of the length wanted |
| Malloc.AnyRunKeeps | stdlib/stdlib.c:34-59 | Any run of requests, whatever fails on the way, keeps the invariant and every mapped page with its frame, rights and content |
| Malloc.FailureIsNotNoticed | stdlib/stdlib.c:42-56 | With no frame free the first request returns 2^64 - 1 and the next one 15, without asking for memory |
| Malloc.MallocKeepsBytes | stdlib/stdlib.c:34-59 | A request, successful or not, changes no readable byte |
| Malloc.BlocksDoNotInterfere | stdlib/stdlib.c:34-59 | Writing in one block changes no byte of another, and leaves the heap in order and usable |
| Malloc.Allocator.Malloc | stdlib/stdlib.c:34-59 | The method does what MallocStep says; until a request has failed, its result is usable exactly under the condition of UsableIff |
| VirtualBytes.ByteOfSetByte | stdlib/strlib.c:28-30 | A byte store changes that byte of its cell and no other |
| VirtualBytes.CellIsLittleEndian | kernel/page.c:17-30 | Eight bytes of a mapped page from a multiple of eight on are the number in the cell at that place of its frame, least significant byte first |
| VirtualBytes.CopyStores | kernel/loader.c:80 | Copying into mapped pages stores exactly the data, byte by byte in virtual memory, and touches no other page |
| Loader.MapRangeSpec | kernel/loader.c:69-77 | The loop adds exactly the segment's pages, clear, and keeps everything mapped before; it succeeds exactly when they can be mapped, and otherwise adds only some of them |
| Loader.LoadSegmentSpec | kernel/loader.c:57-83 | A segment that loads is added with its bytes, zeros and rights; nothing else changes |
| Loader.RightsAreGrantedIff | kernel/loader.c:83 | All pages of a loaded segment have the rights it asks for exactly when it fits one page |
| Loader.NullHeaderEndsLoading | kernel/loader.c:53-55 | At a loadable header with address 0 the loop only counts on |
| Loader.LoadFromSpec | kernel/loader.c:52-86 | All segments load exactly when no page belongs to two of them, none is mapped, and the frames suffice; later ones leave earlier ones alone |
| Loader.MapStackSpec | kernel/loader.c:88-95 | At most the eight stack pages are added, clear, user, writable, and executable; all of them exactly when none was mapped and the frames sufficed |
| Loader.FindModule | kernel/loader.c:30-43 | The first module of that name is taken |
| ElfFile.EncodedIsDescribed | stdlib/elf.h:28-56 | A file written from a header and a program header table, each field in the order and width of the format and least significant byte first, holds them where the header says |
| Loader.HeadersAreRead | kernel/loader.c:34-37 | From a file that holds a header and a table the loader reads the type, the entry point and the number of headers that were written, and entry k of the table for every k |
| Loader.TableIsImage | kernel/loader.c:52-86 | The segments that the loader loads are those of type 1 before which no entry of type 1 has address 0; they share no page exactly when the intervals of their page numbers do not meet |
| Loader.ToldImage | kernel/loader.c:52-95 | The image of a file is the one that its table tells: at p_vaddr the p_filesz bytes of the file from p_offset on, then zeros up to p_memsz; the first page with the rights of p_flags; and otherwise only clear pages from 0x70000000000 on |
| Loader.ExecBuildsTheImage | kernel/loader.c:21-103 | The program is entered exactly when the named file is executable, no page belongs to two of its segments, and clearing the lower half leaves enough frames; the lower half is then exactly its image: file bytes, then zeros, on pages of their own, and clear stack pages, all eight exactly when no segment is in their place and the frames suffice for them too. -1 exactly for an unknown name, -2 exactly for another file type, else -3; the caller's pages survive exactly with -1. The same is stated for every pair of headers and table that the file's bytes encode: -2 exactly when the type written is not 2, 1 exactly when the segments of the table are apart and fit, and then the bytes, zeros and rights that each entry of the table tells at its address |
| Loader.StackIsUsable | kernel/loader.c:88-99 | The whole stack is the 32 KiB from 0x70000000000 on, clear, for the user to read and write |
| Exec.ElfLoader.StoreByte | kernel/loader.c:80 | A byte store walks the tables to the byte it is meant for |
| Exec.ElfLoader.MapPages | kernel/loader.c:68-77 | The method does what MapRange says |
| Exec.ElfLoader.CopyBytes | kernel/loader.c:80 | The bytes are stored one by one through the page tables |
| Exec.ElfLoader.LoadOne | kernel/loader.c:57-83 | The method does what LoadSegment says |
| Exec.ElfLoader.LoadAll | kernel/loader.c:52-86 | The method does what LoadFrom says |
| Exec.ElfLoader.MapStackPages | kernel/loader.c:88-95 | The method does what MapStack says, ignoring failures |
| Exec.ElfLoader.RunExecElf | kernel/loader.c:21-103 | The method does what RunExec says, hence builds the image; the program is entered at the entry point of its header with the stack pointer 8 below the end of the stack, 0x70000007FF8 |
| Kernel.StartLoadsTheProgram | kernel/boot.c:264-319 | From the boot loader's state the first program is entered exactly under those conditions, with its image as the file says, also in terms of the headers encoded in it, and with its whole stack exactly under those |
| Kernel.BlankMachineCanBoot | kernel/boot.c:207-225 | States to boot from exist, with any amount of usable memory |
| Kernel.HeapLeavesTheImage | stdlib/stdlib.c:34-59 | After any run of malloc requests, failed or not, the program's segments still read as the file says. At every point the heap is outside the image exactly when every refill succeeded or, where one failed, no page of the image contains an address below the length wanted, less one (a length from 2^63 on counts as all addresses). If all succeeded, every block is usable |
| Kernel.FailureHandsOutAnyPage | stdlib/stdlib.c:42-56 | With no frame free, two requests make malloc hand out bytes of any given page of the program |
| KeyQueue.AddAppends | kernel/key.c:73-81 | A press appends its key behind everything queued, or changes nothing when 2000 are held |
| KeyQueue.TickMoves | kernel/key.c:171-178 | A step of kgetc puts the oldest key in flight when it loads it, and otherwise moves no key |
| KeyQueue.NoKeyIsLost | kernel/key.c:59-81 | At every point of every interleaving the accepted keys are those delivered, in flight and queued, in order |
| KeyQueue.DroppedOnlyWhenFull | kernel/key.c:74-80 | A press is dropped exactly when 2000 accepted keys occupy slots |
| KeyQueue.NothingDroppedNothingMissing | kernel/key.c:73-81 | With nothing dropped, what was typed is what was delivered, is in flight, or is queued |
| KeyQueue.SixStepsDeliver | kernel/key.c:171-178 | Left alone, kgetc returns the oldest key in six steps |
| KeyQueue.SplitReleaseIsSafeIff | kernel/key.c:65-175 | If the decrement were a load and a store, the count would be right exactly when no key is accepted in between |
| KeyQueue.SplitReleaseHidesKeys | kernel/key.c:65-175 | Those accepted in between would be in the ring but not counted |
| ScanCodes.TableRows | kernel/key.c:34-57 | Which scan codes are modifiers, and that the other entries are nonzero characters below 128 |
| ScanCodes.TablesAreTheLayout | kernel/key.c:34-57 | The two tables are a keyboard layout written down apart from them: four rows with both legends, the keypad, escape, backspace, tab, enter and space; every other code types nothing |
| ScanCodes.FlagsAreTheHistory | kernel/key.c:89-125 | A shift flag says that the key's last make or break was a make; a lock is the parity of its makes; alt and control are never seen released |
| ScanCodes.TypedIsLegend | kernel/key.c:129-161 | By the layout alone: a letter is upper-case exactly when one of caps lock and shift is on; another key gives its second legend exactly when shift is on and caps lock is off |
| ScanCodes.HistoryTypesItsText | kernel/key.c:89-163 | Every history of scan codes types the text it means, a text defined by the layout and by which keys are held or locked, without the tables |
| ScanCodes.TextIsAscii | kernel/key.c:89-163 | No NUL and no code from 128 up is typed |
| ScanCodes.ReaderGetsTheText | kernel/key.c:73-178 | Whatever the interleaving, if nothing was dropped the reader gets the text of the scan codes |
| Keyboard.Keyboard.AddToBuffer | kernel/key.c:73-81 | The method that updates the ring does what the queue machine says |
| Keyboard.Keyboard.PressModifier | kernel/key.c:101-125 | The switch sets, clears or toggles the flag of the key |
| Keyboard.Keyboard.PressCharacter | kernel/key.c:129-161 | The nested tests queue the character that Typed says |
| Keyboard.Keyboard.HandlePress | kernel/key.c:89-163 | The method queues what the layout has for the key under the shift and caps lock flags, and nothing for any other code |
| Keyboard.Keyboard.TakeKey | kernel/key.c:173-177 | The statements after the waiting loop deliver exactly the next key, with interrupts between any two |
| Keyboard.Keyboard.Kgetc | kernel/key.c:171-178 | With interrupts between any two of its statements it returns the next accepted key and echoes it on the screen, or is still waiting with none left |
| ReadEdit.EchoIsTheText | kernel/syscall_def.c:34-49 | While a line is typed that fits its row, the screen shows in it exactly the text that is in the buffer, if and only if no backspace came in that took nothing back (or the line started in column 0) |
| ReadEdit.SysRead | kernel/syscall_def.c:24-52 | Over kgetc with interrupts at any point: all that is read is echoed; the live buffer is the edited form of what was read, which is the next part of the text of the scan codes if nothing was dropped; the call ends when the buffer first holds count characters |
| ReadEdit.PutInBuffer | kernel/syscall_def.c:36-48 | One round stores the character or takes the latest one back |
| ReadEdit.TextAtPositions | kernel/syscall_def.c:36-48 | The text is characters of the input at increasing positions, above each of which lies the net number typed since |
| ReadEdit.TextIsTheSurvivors | kernel/syscall_def.c:36-48 | A character is in the text exactly when backspaces never outnumber characters after it |
| ReadEdit.NoBackspaceIsDelivered | kernel/syscall_def.c:36-48 | A read, of one character or more, never delivers a backspace |
| Strings.Memcpy | stdlib/strlib.c:25-32 | The bytes end up as an ascending copy leaves them; a move when the destination does not start inside the source |
| Strings.OverlapRepeats | stdlib/strlib.c:28-30 | Otherwise every copied byte repeats the one a fixed distance before it |
| Strings.CopyIsMoveIff | stdlib/strlib.c:25-32 | memcpy is a move for all contents exactly when the destination does not start inside the source |
| Strings.Strcmp | stdlib/strlib.c:51-59 | 0 exactly for equal strings; -1 and 1 by the first difference, where bytes from 128 up come before all others |
| Strings.Strsep | stdlib/strlib.c:82-106 | The field ends at the first delimiter, which is erased, and the cursor moves past it; NULL when there is none |
| Strings.SplitString | stdlib/strlib.c:82-106 | Calling strsep until there is no cursor left gives the fields and the memory of SplitAll |
| Strings.SplitRebuilds | stdlib/strlib.c:82-106 | Repeated calls give delimiter-free fields, one more than delimiters, that with the erased delimiters rebuild the string |
| Strings.SplitErasesDelimiters | stdlib/strlib.c:82-106 | The memory changes only in that the string's delimiters become NUL |
| Terminal.PutCharShows | kernel/kprint.c:83-136 | One character keeps the screen a window on the document |
| Terminal.PutAllShows | kernel/kprint.c:83-136 | So does any text, whatever the screen showed before |
| Terminal.ScreenShowsTheText | kernel/kprint.c:68-136 | After any text screen row r is document row (scrolls + r), with row below 25 and column at most 80 |
| Terminal.LeftRowsAreFinal | kernel/kprint.c:83-136 | A row the cursor has left never changes, whatever is written later |
| Terminal.PlainTextFillsRows | kernel/kprint.c:108-132 | Plain text fills rows of 80 from left to right, and a full row is left only by the next character |
| Terminal.Terminal.TermClear | kernel/kprint.c:68-80 | The screen is blank with the cursor at the start |
| Terminal.Terminal.Scroll | kernel/kprint.c:115-127 | The overlapping memcpy moves every row up by one |
| Terminal.Terminal.TermPutchar | kernel/kprint.c:83-136 | The method on the byte buffer does what PutChar says |
| Terminal.Terminal.PrintText | kernel/kprint.c:157-160 | Printing a text on a cleared screen shows the end of its document |
| Numbers.NumeralOk | kernel/kprint.c:168-211 | A numeral has its number's value, digits below the base and no leading zero |
| Numbers.NumeralIsUnique | kernel/kprint.c:168-211 | It is the only canonical numeral with that value |
| Numbers.ExtractDigits | kernel/kprint.c:171-179 | The digit loop never leaves the 20-slot array and fills its end with the numeral |
| Numbers.KprintD | kernel/kprint.c:168-186 | The decimal numeral is printed, in the characters 0 to 9 |
| Numbers.KprintX | kernel/kprint.c:191-211 | The hexadecimal numeral is printed, in the characters 0 to 9 and a to f |
| Numbers.ParsedIs | stdlib/stdlib.c:73-88 | Every string is white space, digits and a rest that neither takes; it reads as the value of the digits, 0 if there are none |
| Numbers.PrintedReadsBack | stdlib/stdlib.c:73-88 | What kprint_d prints reads back as the number, whatever white space (codes 9 to 13 and 32) precedes and whatever non-digit follows |
| Numbers.Atoi | stdlib/stdlib.c:73-88 | The digits after leading white space are read, for numbers below 2^31 |

## Assumptions

- `buffer_count++` and `buffer_count--` are single steps, and the keyboard interrupt runs to completion.
- A scan code is not 0, since the table is indexed with the code less one.
- The frames that hold the kernel, the boot modules and the boot loader's tables are not in usable memory-map entries.
- A module to load has its loadable segments inside the file, in the lower half, with p_filesz at most p_memsz and
  p_memsz below 2^31 less a page (the page counter is an int). At least one module exists.
- A NULL-address `mmap`, and `malloc` when it needs one, find either the addresses asked for, or as many pages as there
  are free frames, below 2^47 from `mmap_next_start` on. On any machine with less than about 127 TiB of memory that is
  so for every length.

## Left out

- Inline assembly: control registers, TLB invalidation, descriptor tables, system-call and user-mode entry. The loader ends where it would enter the program, with the entry point and the stack pointer it would pass, and translations are those of the tables in memory.
- Port I/O: the interrupt controller, the VGA cursor, and the fault handlers.
- Upper-half addresses whose way meets a large page: the functions then write into that page or read it as a table. The methods require that only tables are met, and vm_unmap that the frame can be freed; both conditions are exact or shown to be needed.
- Mapping.MapFromSpec: lower-half addresses; `UpperHalf.UpperMapSpec` has the others.
- Mapping.UnmapFromSpec: lower-half addresses; `UpperHalf.UpperUnmap` has the others.
- Mapping.ProtectFromSpec: lower-half addresses; `UpperHalf.UpperProtect` has the others.
- AddressSpace.MapRefines: lower-half addresses; `UpperHalf.UpperMap` has the others.
- AddressSpace.UnmapRefines: lower-half addresses; `UpperHalf.UpperUnmap` has the others.
- AddressSpace.ProtectRefines: lower-half addresses; `UpperHalf.UpperProtect` has the others.
- AddressSpace.MapThenUnmap: lower-half addresses; in the upper half the frame would be one the ledger no longer counts.
- UpperHalf.AnyMap: upper-half addresses whose way meets a large page.
- PagingRuns.RunKeepsInv: runs in which an upper-half operation meets a large page, or frees a frame that is free or in use.
- PagingRuns.EveryRunIsSafe: runs in which an upper-half operation meets a large page, or frees a frame that is free or in use.
- Pager.FrameManager.MapRound: upper-half addresses whose way meets a large page.
- Pager.FrameManager.VmMap: upper-half addresses whose way meets a large page.
- Pager.FrameManager.VmUnmap: such addresses, and upper-half pages whose frame is free or in use.
- Pager.FrameManager.VmProtect: upper-half addresses whose way meets a large page.
- The accessed and dirty bits that the processor sets in entries.
- phys_to_vir: physical addresses are used directly.
- Pager.FrameManager.ClearFrame: clears a page cell by cell where memset goes byte by byte.
- Mmap.MmapCalls.SysMmap: does not model lengths from 2^63 to 2^63 + 4095, on which the signed counter overflows, and fixed upper-half addresses whose way meets a large page.
- Malloc.Allocator.Malloc: does not model the sizes from 2^63 - 4095 to 2^63, which all round to a refill of 2^63 bytes, for the same reason.
- Mmap.MmapSpec: does not model mmap_next_start in the upper half.
- Numbers.Atoi: does not model numbers from 2^31 up, on which the int overflows.
- Loader.LoadFrom: reads header fields beyond the end of the file as 0.
- Loader.ExecBuildsTheImage: does not model the kernel writing to pages that hold the boot modules, which are values here.
- Keyboard.Keyboard.HandlePress: does not model the message that an unused scan code prints on the terminal, which may come between the echoed keys.
- kgets, sys_write, kprint_s on its own, kprintf and the printf family: loops over the modelled routines, or dispatch on variadic arguments.
- getline and strtok_r: they step past the end of the string in some cases.
- stringlen, strcpy, strpbrk, memset and the character tests in ctype.c, beyond what the rest needs.
- print_freelist, peek_freelist, translate and print_mem_address: debugging output.
