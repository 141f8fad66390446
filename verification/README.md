# KeiOS kernel: verified model

KeiOS is a small i386 kernel with Rust drivers. This project models its memory stack, its parsers for
untrusted bytes, its line and number arithmetic, and its keyboard-to-shell input path, and proves what
they are relied on for.

Each part comes in two layers. The first is a model on values with the theorems about it: `Heap`,
`Frames`, `BootMap`, `Paging`, `AddressSpace`, `FrameDemand`, `WindowTables`, `WindowContents`, `KernelBoot`,
`AccessRights`, `KernelLayout`, `HeapOnPages`, `Cpio`, `Aml`, `Raster`, `Ipc`, `Keyboard`, `InputPipeline`, `Editor`,
`Format`, `FormatMeaning` and `Screen`; `BootBytes` writes the boot loader's structures and `BootExample` is
a concrete machine. The second is the code in its own imperative form, with the same
loops over the same buffers, proved to compute the first: `HeapAllocator` and
`KernelHeap`, `FrameAllocator`, `PageMapper`, `KernelMemory`, `CpioArchive`, `AcpiShutdown`,
`LineDrawing`, the classes of `Ipc` and `InputPipeline`, `LineEditor`, `ShellInput`, `Printf` and
`Terminal`. A panic is the outcome `Panicked`; contracts say exactly when it happens.

- Memory: headers live in the memory the heap hands out and are rewritten in place; page tables are
  reached through the recursive mapping by an explicit MMU walk over 4 KiB frames; the frame allocator
  is a bitmap of bytes built from the raw Multiboot memory map (Multiboot Specification 0.6.96,
  section 3.3).
- Parsers: the CPIO reader is proved against the writer of its own tests, and the ACPI `_S5_` scanner
  against the encodings of the ACPI Specification, sections 20.2.3 and 20.2.4.
- Arithmetic: Bresenham's loop against the rounded ideal line, number formatting against reading back,
  bounded printing against the unbounded rendering.
- Input: interrupts and receives interleave as atomic steps; the editor and its history ring follow.

Results that a reader of the source may not expect:

- `draw_rect` plots the outline if and only if width and height are both positive; an empty rectangle
  still plots its corner (`Raster.RectIsOutline`, `Raster.EmptyRectPlots`).
- A numeric conversion with a width above 32 panics in `uvalue_to_str`, zero padding or not, although
  `kvsnprintf` allows 68; nothing else in a format panics (`Format.PanicsIff`,
  `Format.WideNumberPanics`).
- Down at the initial history position, before anything was submitted, clears what has been typed; it
  does nothing only at the bottom of the history (`Editor.FirstDownClears`, `Editor.DownRestsIff`).
- With Shift held, Enter and Backspace type nothing (`Keyboard.HistoryTypes`).
- Bits 4 and 5 of the lead byte of a multi-byte PkgLength are ignored (`Aml.PkgEncoded`).
- A trailer entry with data is an error, but the reader has already moved past it; every other error
  leaves it where it was (`Cpio.ErrorMovesIff`, `Cpio.LoadedTrailerExists`).
- The search of `pmm_alloc_contiguous` skips no solution (`Frames.SkipUnaligned`,
  `Frames.SkipUsed`), and the assertion that the heap could be mapped cannot fail
  (`KernelBoot.MemInitGood`).
- The lowest-frame-first choice decides when `acpi_map_range` runs out of frames: tables use up the free
  frames below the requested range first, so that later ones depend on the frames above it
  (`FrameDemand.ServedIff`, `FrameDemand.AcpiReturnsIff`).
- That a window of `acpi_map_range` shows the memory asked for is false in general: the loop reserves one
  page at a time, so a table of the request can take a frame of the range that is not reserved yet, and
  the window leads to that table (`WindowContents.TwoPagesClash`; right after boot,
  `BootExample.FirstRequestClashes`). The exact condition can be checked before the call
  (`WindowTables.ClashIff`, `WindowContents.WindowLeadsToTableIff`). Otherwise the window shows the
  range byte for byte whatever follows (`WindowContents.WindowShowsRequest`), and always when the frames
  are in use already, as all outside the available memory are (`WindowContents.UsedRangeIsSafe`).
- Allocator calls, window requests and stores of block owners can be mixed freely: a word of a live block,
  read through the page tables, changes only when it is stored (`HeapOnPages.RunKeepsWord`).
- Inside the recursive window `vmm_map_page` rewrites directory entries; `Paging.WindowValidIff` says which
  of these calls the page tables survive.
- Backspace takes back a character on the terminal except one that scrolled the screen
  (`Screen.BackspaceUndoes`).

## Model

| member | source | states |
|---|---|---|
| `Heap.AllocateWellFormed` | src/arch/x86/mem/heap.c:54-101 | kmalloc keeps the tiling: each segment starts where the one before ends, lengths are positive multiples of 16, the first and last edges of the region stay, no two neighbours are both free |
| `Heap.ReleaseWellFormed` | src/arch/x86/mem/heap.c:130-154 | kfree with both merges keeps the same tiling and leaves no two free neighbours |
| `Heap.AllocateLive` | src/arch/x86/mem/heap.c:90-98 | the returned block is 16-aligned, inside the region, holds the aligned request and at most 32 bytes more, is clear of every live block and of its header, and is the only change to the set of live blocks |
| `Heap.ReleaseLive` | src/arch/x86/mem/heap.c:119-154 | kfree removes exactly the freed block from the set of live blocks |
| `Heap.LiveBlocksApart` | src/arch/x86/mem/heap.c:54-155 | no two segments, header included, share a byte |
| `Heap.FirstFit` | src/arch/x86/mem/heap.c:91-100 | the index is that of the first free segment long enough, or the length of the list when there is none |
| `Heap.Find` | src/arch/x86/mem/heap.c:119-122 | the index is that of the first segment with this payload address, or the length of the list |
| `Heap.ExhaustionIsExact` | src/arch/x86/mem/heap.c:91-104 | the search finds room if and only if some gap between live blocks holds the request and a header, so fragmentation is never self-inflicted |
| `Heap.MallocReturnsIff` | src/arch/x86/mem/heap.c:81-105 | kmalloc returns if and only if the size is positive, can be aligned, and some gap between live blocks holds the request and its header; otherwise it panics |
| `Heap.FreeReturnsIff` | src/arch/x86/mem/heap.c:107-128 | kfree returns if and only if its argument is null or the address of a live block |
| `Heap.MallocMeans` | src/arch/x86/mem/heap.c:90-98 | the pointer kmalloc returns is a multiple of 16, 16 bytes above the lowest gap that holds the request, and the payload of a new block of at least size and at most size + 47 bytes, which is the only new live block and clear of all others; a free rest holds at least 32 bytes |
| `Heap.FreeMeans` | src/arch/x86/mem/heap.c:107-155 | kfree of null changes nothing; otherwise the block with that payload address was live and is the only one to go |
| `Heap.LiveDetermines` | src/arch/x86/mem/heap.c:54-155 | two well-formed lists over one region with the same live blocks are equal, so the two statements above fix the list every call leaves |
| `Heap.RunKeepsHeap` | src/arch/x86/mem/heap.c:54-155 | over every run of calls that does not panic the list tiles the region, is coalesced, and the sum of 16 + length over the segments never changes |
| `Heap.TilesTotal` | src/arch/x86/mem/heap.c:54-155 | headers and payloads of a tiling add up to the size of the region |
| `Heap.NoneLiveIsFresh` | src/arch/x86/mem/heap.c:132-154 | with no live block the heap is one free segment of the initial length |
| `Heap.FreeingAllRestores` | src/arch/x86/mem/heap.c:107-155 | freeing all live blocks once each, in any order, never panics and restores the initial single segment |
| `HeapAllocator.SplitLinked` | src/arch/x86/mem/heap.c:64-78 | the words split_segment writes, in its order, turn headers linked as the old list into headers linked as the list with the segment split |
| `HeapAllocator.AbsorbLinked` | src/arch/x86/mem/heap.c:133-154 | the words either merge writes turn headers linked as the old list into headers linked as the list with the two segments joined |
| `HeapAllocator.AllocateSteps` | src/arch/x86/mem/heap.c:94-97 | splitting and then clearing the free flag is the abstract allocation |
| `HeapAllocator.ReleaseSteps` | src/arch/x86/mem/heap.c:130-154 | setting the flag, merging forward and then backward is the abstract release |
| `HeapAllocator.HeadersAvoidPayloads` | src/arch/x86/mem/heap.c:54-155 | writes that stay inside the headers of a tiling change no byte of a live payload and nothing outside the heap |
| `HeapAllocator.AllocateLeaves` | src/arch/x86/mem/heap.c:81-101 | an allocation changes no byte of a block that was live, and nothing outside the heap |
| `HeapAllocator.StoreLinked` | src/arch/x86/mem/heap.c:11-23 | a store that hits no header leaves every header linked as before |
| `KernelHeap.Allocator.Init` | src/arch/x86/mem/heap.c:25-52 | heap_init panics exactly for the listed bad ranges; otherwise one free segment fills the range from the aligned start to the last multiple of 16 before its end, and only its header is written |
| `KernelHeap.Allocator.SplitSegment` | src/arch/x86/mem/heap.c:54-79 | the linked headers in memory become those of the split list when the rest can hold a header and 32 bytes, and stay as they are otherwise |
| `KernelHeap.Allocator.FindFit` | src/arch/x86/mem/heap.c:91-100 | walking the next links finds the first fitting segment |
| `KernelHeap.Allocator.FindPayload` | src/arch/x86/mem/heap.c:119-122 | walking the next links finds the segment with this payload address |
| `KernelHeap.Allocator.Kmalloc` | src/arch/x86/mem/heap.c:81-105 | on the linked headers kmalloc does what the abstract step does: same panic condition, same pointer, same list; no live payload byte and nothing outside the heap changes |
| `KernelHeap.Allocator.Kfree` | src/arch/x86/mem/heap.c:107-155 | on the linked headers kfree does what the abstract step does, with the same panic condition; no live payload byte and nothing outside the heap changes |
| `KernelHeap.Allocator.Store` | src/arch/x86/mem/heap.c:16-22 | a client may store anything in any aligned word of a live block without disturbing the allocator |
| `HeapOnPages.LoadStored` | src/kernel/core/mem.c:38-43 | a word stored through the mapped heap window is read back there, and every other heap word reads as before |
| `HeapOnPages.StoresAreChanges` | src/arch/x86/mem/heap.c:54-155 | the stores an allocator call stands for go exactly to heap words that it changed, with their new values |
| `HeapOnPages.StoresRun` | src/arch/x86/mem/heap.c:54-155 | those stores are a run of heap stores: the address space stays good, frames and windows are as before, and the heap window then reads as the allocator left its memory |
| `HeapOnPages.RequestKeepsHeap` | src/kernel/acpi/acpi.c:24-54 | a request for a window changes no word of the mapped heap |
| `HeapOnPages.ActsTied` | src/arch/x86/mem/heap.c:54-155 | a window request, an allocator call or a store into a live block keeps the address space good, the list well-formed and the mapped heap equal to its linked headers |
| `HeapOnPages.RunKeepsTied` | src/arch/x86/mem/heap.c:54-155 | the same over every sequence of these actions; windows granted stay |
| `HeapOnPages.RunKeepsWord` | src/arch/x86/mem/heap.c:16-22 | over every such sequence a word of a live block, read through the page tables, changes only when it is stored |
| `HeapOnPages.InitTied` | src/kernel/core/mem.c:33-43 | the header heap_init writes into the freshly mapped heap is where every such sequence can start |
| `Frames.ReserveMeans` | src/arch/x86/mem/pmm.c:24-53 | reserving a range marks every manageable frame that shares a byte with it and changes no other |
| `Frames.FreeMeans` | src/arch/x86/mem/pmm.c:24-53 | freeing a range frees exactly the manageable frames wholly inside it |
| `Frames.ReservePhysMeans` | src/arch/x86/mem/pmm.c:220-230 | despite wrap-around of the 64-bit end, exactly the frames overlapping the range become allocated |
| `Frames.AllocFrame` | src/arch/x86/mem/pmm.c:176-185 | one frame that was free becomes allocated and nothing else changes; a panic means that no frame at all is free |
| `Frames.FirstRun` | src/arch/x86/mem/pmm.c:187-218 | the first aligned free run at or after a frame; none means that no such run exists |
| `Frames.SkipUnaligned` | src/arch/x86/mem/pmm.c:198-202 | jumping to the next aligned frame skips no solution |
| `Frames.SkipUsed` | src/arch/x86/mem/pmm.c:204-214 | jumping past the used frame that broke a candidate skips no solution |
| `Frames.FirstRunMeans` | src/arch/x86/mem/pmm.c:187-218 | the frame returned is aligned and starts the lowest run of free frames of the length asked for; none means that no aligned run is free |
| `Frames.MarkRunMeans` | src/arch/x86/mem/pmm.c:210-212 | taking a run marks its frames and no other |
| `BootMap.PassOneMeans` | src/arch/x86/mem/pmm.c:95-96 | pass 1 frees exactly the manageable frames contained in one single available entry |
| `BootMap.PassTwoMeans` | src/arch/x86/mem/pmm.c:97-99 | pass 2 takes back exactly the manageable frames that overlap an entry that is not available |
| `BootMap.ReserveAllMeans` | src/arch/x86/mem/pmm.c:107-151 | the reservations mark exactly the manageable frames that overlap one of the reserved ranges |
| `BootMap.FreeAfterInit` | src/arch/x86/mem/pmm.c:153-174 | after pmm_init a frame is free if and only if it is in 1..total, inside a single available entry, clear of every other entry, not below the kernel end and clear of every boot structure |
| `BootBytes.ModulesDecode` | include/kernel/multiboot.h:58-63 | decoding a module table inverts an independent little-endian writer of descriptors |
| `BootBytes.InfoDecodes` | include/kernel/multiboot.h:65-123 | decoding the information structure inverts writing its fields in order, whatever stands between them |
| `BootBytes.MapDecodes` | src/arch/x86/mem/pmm.c:55-105 | reading a written memory map panics if and only if an entry wraps, and otherwise yields exactly the non-empty entries |
| `BootBytes.MapEncoded` | src/arch/x86/mem/pmm.c:55-105 | every memory map that is read to its end is one that can be written |
| `BootBytes.FreeOnBytes` | src/arch/x86/mem/pmm.c:55-174 | on the bytes of the three structures: pmm_init panics exactly for the listed faults; otherwise a frame is free if and only if it is not frame 0, one available entry holds it, and no other entry, no byte below the kernel end, no module, command line, table, structure or framebuffer lies in it |
| `FrameAllocator.UnpackUpdate` | src/arch/x86/mem/pmm.c:45-52 | setting or clearing one bit of one bitmap byte changes that one frame |
| `FrameAllocator.Pmm.DoSetFrames` | src/arch/x86/mem/pmm.c:24-53 | the marking loop over the bitmap computes the abstract marking |
| `FrameAllocator.Pmm.ReservePhysical` | src/arch/x86/mem/pmm.c:220-230 | pmm_reserve_phys on the bitmap computes the abstract reservation |
| `FrameAllocator.Pmm.DoAllocFrame` | src/arch/x86/mem/pmm.c:176-185 | pmm_alloc_frame returns the lowest free frame and marks it, or panics with the bitmap unchanged |
| `FrameAllocator.Pmm.AllocContiguous` | src/arch/x86/mem/pmm.c:187-218 | the skipping search returns the first aligned free run and marks exactly it; it returns 0, changing nothing, exactly for bad arguments or when no such run exists |
| `FrameAllocator.Pmm.FindRun` | src/arch/x86/mem/pmm.c:197-217 | the search loop terminates and agrees with trying every frame in turn |
| `FrameAllocator.Pmm.Scan` | src/arch/x86/mem/pmm.c:65-104 | the byte-level walk of the memory map panics exactly on malformed or wrapping entries, returns the highest end, and applies the pass to every entry in order |
| `FrameAllocator.Pmm.ReadMemoryMap` | src/arch/x86/mem/pmm.c:55-105 | the same with the checks that the map is present and readable |
| `FrameAllocator.Pmm.ReserveModules` | src/arch/x86/mem/pmm.c:134-144 | the loop over the bytes of the module table reserves payload and command line of each module in order, and panics exactly on a module that ends before it starts |
| `FrameAllocator.Pmm.ReserveBootStructures` | src/arch/x86/mem/pmm.c:107-151 | reserves every range the boot information names, in order, and panics exactly on too many, unreadable or reversed modules |
| `FrameAllocator.Pmm.Init` | src/arch/x86/mem/pmm.c:153-174 | pmm_init on the bytes of the boot structures leaves the frame map that FreeAfterInit describes, or panics exactly when that map is not defined, a null pointer included |
| `Paging.PdeAddrMeans` | src/arch/x86/mem/vmm.c:17-19 | the address get_pde computes leads through the MMU walk to the directory entry that controls v, for every 32-bit v |
| `Paging.PteAddrMeans` | src/arch/x86/mem/vmm.c:21-23 | when v has a table, the address get_pte computes leads through the MMU walk to the table entry that controls v, for every 32-bit v |
| `Paging.ExistingTable` | src/arch/x86/mem/vmm.c:62-65 | writing an entry of an existing table moves exactly one page |
| `Paging.FreshTable` | src/arch/x86/mem/vmm.c:52-65 | adding a cleared table in a free frame maps exactly one page and disturbs no other translation |
| `Paging.MapPageValid` | src/arch/x86/mem/vmm.c:43-66 | mapping keeps the invariant: table frames are pairwise distinct, differ from the directory and are allocated |
| `Paging.MapPagePanicsIff` | src/arch/x86/mem/vmm.c:51-53 | vmm_map_page panics if and only if v has no table and no frame is free |
| `Paging.MapPageMeans` | src/arch/x86/mem/vmm.c:43-66 | after true v leads to p and every other page outside the recursive window keeps its translation, with the given flags in a 4 KiB entry; after false nothing changed and v led elsewhere |
| `Paging.WindowMapsDirectory` | src/arch/x86/mem/vmm.c:62-65 | for v inside the recursive window the call always succeeds and overwrites the directory entry of the page number of v, whatever it was |
| `Paging.WindowValidIff` | src/arch/x86/mem/vmm.c:62-65 | such a call keeps the invariant if and only if it writes the directory itself into the last entry, or into another entry something that is no table or a frame in use that is neither the directory nor a table yet |
| `AccessRights.MapPageAccess` | src/arch/x86/mem/vmm.c:51-65 | after true a page outside 4 MiB pages is writable, open to user mode and written through as its flags ask, as far as its directory entry allows; every other page keeps its access |
| `AccessRights.MapPageEntries` | src/arch/x86/mem/vmm.c:45-65 | the page entry written is that of the frame with every flag but the present bit, which is always set; a new directory entry is present and writable, open to user mode as asked, with no other flag |
| `AccessRights.NewTableAccess` | src/arch/x86/mem/vmm.c:51-65 | a page that had no table gets a directory entry that is writable and open to user mode exactly when the flags say so, and a table entry with both bits as the flags say |
| `AccessRights.MapPagesAccess` | src/kernel/core/mem.c:38-41 | over the mapping loops the new pages get the access of the flags, tables stay writable and closed to user mode, and every other page keeps its access |
| `PageMapper.TableWordAddr` | src/arch/x86/mem/vmm.c:57-59 | every word of the table of v can be reached at its address in the window |
| `PageMapper.Vmm.ClearTable` | src/arch/x86/mem/vmm.c:57-59 | clearing through the window zeroes the one frame that holds the table |
| `PageMapper.Vmm.AddTable` | src/arch/x86/mem/vmm.c:51-60 | installs the entry and an empty table and keeps the self-mapping |
| `PageMapper.Vmm.DoMapPage` | src/arch/x86/mem/vmm.c:43-66 | vmm_map_page for every address, each load and store going through the MMU, does what the abstract mapping does; below the recursive window the invariant survives |
| `PageMapper.Vmm.IsPageMapped` | src/arch/x86/mem/vmm.c:68-79 | for every address: true if and only if the MMU walk succeeds |
| `AddressSpace.MapPagesSound` | src/kernel/acpi/acpi.c:43-50 | the mapping loops keep the invariant and never fail part way |
| `AddressSpace.MapPagesMeans` | src/kernel/acpi/acpi.c:43-50 | after the loop the run of pages leads to the run of frames, and every other address leads where it did |
| `AddressSpace.WindowKept` | src/kernel/acpi/acpi.c:43-53 | windows apart from the newly mapped pages keep every translation |
| `AddressSpace.WindowMade` | src/kernel/acpi/acpi.c:34-53 | byte k of the new window leads to byte phys_addr + k |
| `AddressSpace.AcpiMapRangeMeans` | src/kernel/acpi/acpi.c:24-54 | null is returned exactly for the four refused requests, changing nothing; otherwise one window is added, and windows stay disjoint, inside the ACPI range and correctly translated, as does the heap; what the window then shows is WindowContents |
| `KernelLayout.AcpiMapRangePlaces` | src/kernel/acpi/acpi.c:24-54 | the four refusals with their numbers; otherwise the returned address is in the next free page, which moves on by exactly the pages that hold a byte of the request |
| `KernelLayout.RunLaidOut` | src/kernel/acpi/acpi.c:24-54 | over every run after boot: 16 MiB at 0xC0000000 lead to low memory, 4 MiB at 0xE0000000 to the heap, the ACPI area is mapped up to the next free page and written through, all writable and closed to user mode, and every other address below the recursive window faults |
| `AddressSpace.HeapStoresAreHarmless` | src/kernel/core/mem.c:33-43 | no store through the heap window can change any translation |
| `AddressSpace.HeapStoreGood` | src/kernel/core/mem.c:33-43 | a word stored anywhere in the heap keeps the whole invariant: tables, windows and the heap mapping itself |
| `AddressSpace.RunKeepsAddressSpace` | src/kernel/acpi/acpi.c:24-54 | over every run of calls, with heap stores in between, all windows handed out stay disjoint, in range and correctly translated, and every heap byte still leads to its frame |
| `FrameDemand.ServedIff` | src/arch/x86/mem/pmm.c:176-185 | a run of pages whose own frames are reserved one by one and whose tables take the lowest free frame is served to its end if and only if the counts of free frames below the range and above its reserved part suffice |
| `FrameDemand.SparedFramesSuffice` | src/arch/x86/mem/pmm.c:176-185 | as many free frames outside the range as tables are missing are always enough |
| `FrameDemand.MapPagesServe` | src/kernel/acpi/acpi.c:43-50 | the mapping loop needs a table exactly at the first page of each directory entry that is missing, and panics exactly when such a table cannot be served |
| `FrameDemand.AcpiReturnsIff` | src/kernel/acpi/acpi.c:24-54 | acpi_map_range returns if and only if it refuses the request or the free frames suffice for the missing page tables; otherwise it panics |
| `WindowTables.ClashIff` | src/kernel/acpi/acpi.c:43-47 | a table of the run takes a frame of the range if and only if some page needs a table when no free frame below the range is left while a later frame of the range is still free |
| `WindowContents.MapPagesSteady` | src/kernel/acpi/acpi.c:43-50 | exactly the frames the run takes for tables become tables; used frames stay used, and every frame that is neither the directory nor a table keeps its contents |
| `WindowContents.RunSteady` | src/kernel/acpi/acpi.c:24-54 | over every run of requests and heap stores used frames stay used, directory and tables stay, only free frames become tables, and all other frames outside the heap keep their contents |
| `WindowContents.RangeHoldsTablesIff` | src/kernel/acpi/acpi.c:24-54 | after a granted request and any run that follows, a frame of its range is the directory or a table if and only if one was before the request or its own tables clash with it |
| `WindowContents.WindowLeadsToTableIff` | src/kernel/acpi/acpi.c:24-54 | the window of a granted request leads into the directory or a table, after any run that follows, under exactly that condition |
| `WindowContents.WindowShowsRequest` | src/kernel/acpi/acpi.c:24-54 | otherwise, and clear of the heap, every byte of the window reads as that byte of the range did before the request, whatever requests and heap stores follow |
| `WindowContents.UsedRangeIsSafe` | src/kernel/acpi/acpi.c:24-54 | a request for frames that are all in use and neither directory nor tables always gets such a window |
| `WindowContents.TwoPagesClash` | src/kernel/acpi/acpi.c:43-50 | two pages without a table, every frame below the first in use and the second free: the request succeeds, its table is the second frame, and the second page of the window leads to it |
| `KernelBoot.BootMapped` | src/arch/x86/boot/grub.asm:65-76 | the boot directory lets the kernel reach each of the first 16 MiB at its higher-half address |
| `KernelBoot.BootSound` | src/arch/x86/mem/vmm.c:25-41 | after vmm_init and the allocation of the heap frames the invariant holds: the directory and the heap frames are allocated and apart |
| `KernelBoot.MemInitGood` | src/kernel/core/mem.c:15-44 | mem_init, when it does not panic, leaves the heap mapped byte for byte and a state from which every run of ACPI mappings is good |
| `KernelLayout.BootLaidOut` | src/arch/x86/mem/vmm.c:25-36 | mem_init leaves exactly this layout: the identity mapping is gone, kernel and heap are mapped writable for the kernel only, nothing else is mapped |
| `KernelBoot.MemInitTakes` | src/kernel/core/mem.c:31-41 | once mem_init returns, the heap lies in the lowest 1024 free frames in a row, its page table in the lowest free frame beside them, and no other frame has been taken |
| `KernelBoot.MemInitReturnsIff` | src/kernel/core/mem.c:31-41 | mem_init returns if and only if pmm_init does and leaves 1024 free frames in a row and one more free frame for their page table |
| `KernelBoot.HeapMapsIff` | src/kernel/core/mem.c:38-41 | mapping the heap returns if and only if some frame is free, and takes exactly the lowest free frame, for its one table |
| `BootExample.FreeFrames` | src/arch/x86/mem/pmm.c:153-174 | with one available entry from 1 to 65 MiB and a kernel that ends at 2 MiB, pmm_init returns and exactly the frames from 2 to 65 MiB are free |
| `BootExample.BootReturns` | src/kernel/core/mem.c:31-43 | on that machine mem_init returns, with the heap in the first 1024 free frames and its table in the next one |
| `BootExample.FirstRequestClashes` | src/kernel/acpi/acpi.c:24-54 | there the first request for the two lowest free frames succeeds, and the second page of its window leads to its own page table |
| `KernelMemory.Memory.ActivateDirectory` | src/arch/x86/mem/vmm.c:25-35 | the two directory entries are written through the boot mapping, giving the activated directory |
| `KernelMemory.Memory.MapHeap` | src/kernel/core/mem.c:38-41 | the loop over the heap pages is the abstract run of mappings |
| `KernelMemory.Memory.PrepareFrames` | src/kernel/core/mem.c:31-36 | activation, pmm_init and the contiguous allocation in order, with the panics of each |
| `KernelMemory.Memory.BootMemory` | src/kernel/core/mem.c:19-41 | mem_init up to heap_init computes exactly the abstract result |
| `KernelMemory.Memory.Boot` | src/kernel/core/mem.c:15-44 | mem_init, the null pointer included, panics exactly when its abstract form does and leaves a valid kernel, address space and fresh heap |
| `KernelMemory.Memory.DoAcpiMapRange` | src/kernel/acpi/acpi.c:24-54 | acpi_map_range over the page mapper does what the abstract call does |
| `KernelMemory.Memory.StoreInHeap` | src/kernel/core/mem.c:33-43 | a store through the MMU into the heap window is the abstract heap store and leaves the kernel valid |
| `Cpio.HexRoundTrip` | rust/crates/drivers/src/cpio/header.rs:21-35 | parsing inverts eight-digit (and shorter) upper-case formatting |
| `Cpio.HeaderRoundTrip` | rust/crates/drivers/src/cpio/header.rs:37-52 | parsing the header append_entry writes gives back its sizes and fixed fields |
| `Cpio.HexReads` | rust/crates/drivers/src/cpio/header.rs:21-35 | up to eight bytes parse to v if and only if they spell v in hexadecimal digits of either case |
| `Cpio.HeaderReads` | rust/crates/drivers/src/cpio/header.rs:37-53 | a header parses to six values if and only if one of the two magic numbers stands in front and the eight digits at bytes 14, 22, 30, 46, 54 and 94 spell them |
| `Cpio.ReadCases` | rust/crates/drivers/src/cpio/archive.rs:67-118 | which bytes give which of the four errors, and which entry otherwise, with all offsets |
| `Cpio.ReadTrailer` | rust/crates/drivers/src/cpio/archive.rs:107-115 | an entry named TRAILER!!! without data ends the archive |
| `Cpio.ReadInBounds` | rust/crates/drivers/src/cpio/archive.rs:67-118 | header, name and data of a yielded entry lie in order inside the archive; the next offset is a multiple of 4 and at least 112 bytes on |
| `Cpio.OverflowIsExact` | rust/crates/drivers/src/cpio/archive.rs:79-105 | on a 32-bit usize the range error is returned if and only if everything before the data is well formed and the data would end past 2^32 - 1 |
| `Cpio.AlignTo4` | rust/crates/drivers/src/cpio/archive.rs:40-44 | the next multiple of 4, or the range error exactly when 3 more than the value does not fit |
| `Cpio.EntriesInOrder` | rust/crates/drivers/src/cpio/wrapper.rs:64-88 | for arbitrary bytes the driving loop ends, and its entries are in bounds and follow one another without overlap |
| `Cpio.Layout` | rust/crates/drivers/src/cpio/archive.rs:126-146 | where append_entry puts header, name and data, whatever came before and follows |
| `Cpio.ReadAppended` | rust/crates/drivers/src/cpio/archive.rs:67-118 | reading at the place where an entry was appended gives back its header, name and data and the offset behind it |
| `Cpio.ReadBack` | rust/crates/drivers/src/cpio/archive.rs:67-118 | reading on from any point of a written archive yields the remaining files and then the trailer |
| `Cpio.RoundTrip` | rust/crates/drivers/src/cpio/archive.rs:126-146 | for every list of archivable files and whatever follows the trailer, reading yields exactly the files, then None, and None on every later call |
| `Cpio.ErrorMovesIff` | rust/crates/drivers/src/cpio/archive.rs:106-113 | after an error the reader stands where it was if and only if the entry there is not a complete trailer with data; past such a trailer it has moved on |
| `Cpio.LoadedTrailerExists` | rust/crates/drivers/src/cpio/archive.rs:106-113 | an archive on which that happens: a trailer written with one byte of data |
| `CpioArchive.ParseHexU32` | rust/crates/drivers/src/cpio/header.rs:21-35 | the accumulating loop computes the value the round trip is about |
| `CpioArchive.AppendEntry` | rust/crates/drivers/src/cpio/archive.rs:126-146 | the writer with its byte-by-byte padding builds the bytes the layout is about |
| `CpioArchive.PushZeros` | rust/crates/drivers/src/cpio/archive.rs:139-145 | pushing zeros until the length is a multiple of 4 appends exactly the padding |
| `CpioArchive.Archive.ReadFilename` | rust/crates/drivers/src/cpio/archive.rs:46-65 | a name is accepted if and only if it lies in the archive, ends in its only NUL, is not empty and is UTF-8 |
| `CpioArchive.Archive.ReadHere` | rust/crates/drivers/src/cpio/archive.rs:71-105 | the checks of next_entry, in its order, find the entry or the first thing wrong with it |
| `CpioArchive.Archive.NextEntry` | rust/crates/drivers/src/cpio/archive.rs:67-118 | next_entry returns the entry, None or error of the abstract reader and moves offset and trailer_seen with it |
| `CpioArchive.Archive.Parse` | rust/crates/drivers/src/cpio/wrapper.rs:64-88 | the driving loop terminates on any bytes and hands over exactly the entries of the abstract listing, in order, with its final status |
| `CpioArchive.Wrapper.Init` | rust/crates/drivers/src/cpio/wrapper.rs:45-55 | cpio_init refuses a null, empty or oversized archive and keeps the one it has; otherwise the new archive is read from its start |
| `CpioArchive.Wrapper.Parse` | rust/crates/drivers/src/cpio/wrapper.rs:58-90 | cpio_parse answers InvalidInfo without an archive, and otherwise hands over the entries from where the archive stands and translates the way it ends into a status |
| `Aml.PkgDecodes` | src/kernel/acpi/shutdown.c:8-32 | decoding inverts the one- to four-byte PkgLength encoding of ACPI section 20.2.4, for every length below 2^28 |
| `Aml.PkgEncoded` | src/kernel/acpi/shutdown.c:8-32 | whatever the decoder accepts is such an encoding of a length that covers itself and stays inside the code |
| `Aml.PkgReads` | src/kernel/acpi/shutdown.c:7-32 | a package length is accepted if and only if its one to four bytes spell a length that covers them and stays inside the code |
| `Aml.ReadPkg` | src/kernel/acpi/shutdown.c:8-32 | the decoded package ends inside the byte code |
| `Aml.IntDecodes` | src/kernel/acpi/shutdown.c:34-80 | decoding inverts the encoding of integers up to 7 in each of the widths |
| `Aml.IntEncoded` | src/kernel/acpi/shutdown.c:34-80 | whatever the decoder accepts is such an encoding inside the package |
| `Aml.IntReads` | src/kernel/acpi/shutdown.c:34-80 | an integer is accepted in exactly these forms: 0x00, 0x01, and 0x0A, 0x0B, 0x0C, 0x0E with one, two, four, eight bytes that hold a number up to 7 |
| `Aml.S5Decodes` | src/kernel/acpi/shutdown.c:83-100 | a well-formed _S5_ package yields its two values |
| `Aml.S5Encoded` | src/kernel/acpi/shutdown.c:83-100 | whatever is accepted is a well-formed _S5_ package with these values |
| `Aml.S5Reads` | src/kernel/acpi/shutdown.c:82-107 | an offset is accepted if and only if _S5_ and 0x12 stand there, then a package of two or more elements that starts with two integers |
| `Aml.AcceptsExactly` | src/kernel/acpi/shutdown.c:83-100 | an offset is accepted if and only if a well-formed _S5_ package starts there |
| `Aml.FindFromFirst` | src/kernel/acpi/shutdown.c:82-104 | the search returns the first accepted offset, and none only if there is none |
| `Aml.FindMeans` | src/kernel/acpi/shutdown.c:82-104 | the search succeeds if and only if some offset starts a well-formed _S5_ package, and it returns the values of the smallest such offset |
| `Aml.ControlWordBits` | src/kernel/acpi/shutdown.c:129-130 | sleep type in bits 10 to 12, bit 13 set, all other bits clear |
| `AcpiShutdown.ReadPackageLength` | src/kernel/acpi/shutdown.c:8-32 | the byte loop computes the abstract decoding, reading only inside the code |
| `AcpiShutdown.ReadInteger` | src/kernel/acpi/shutdown.c:34-80 | the byte loop computes the abstract decoding, reading only inside the package |
| `AcpiShutdown.FindS5` | src/kernel/acpi/shutdown.c:82-104 | the scanning loop computes the abstract search |
| `AcpiShutdown.Shutdown` | src/kernel/acpi/shutdown.c:110-135 | ports are written exactly when the tables, ports and package are acceptable, and then with exactly the two control words |
| `Raster.HalfPixel` | rust/crates/drivers/src/display/shapes.rs:5-28 | every point of the line is at most half a pixel off the ideal line |
| `Raster.Connected` | rust/crates/drivers/src/display/shapes.rs:17-26 | consecutive points differ by at most one column and one row, and are never equal |
| `Raster.Endpoints` | rust/crates/drivers/src/display/shapes.rs:12-16 | the line starts at the first endpoint and reaches the second with point max(dx, dy), not before |
| `Raster.RectIsOutline` | rust/crates/drivers/src/display/shapes.rs:31-38 | draw_rect plots exactly the outline if and only if width and height are both positive |
| `Raster.EmptyRectPlots` | rust/crates/drivers/src/display/shapes.rs:31-38 | an empty rectangle plots its corner although it has no outline |
| `LineDrawing.StepStaysOnLine` | rust/crates/drivers/src/display/shapes.rs:17-26 | the two tests of the loop body keep the error term within half a pixel of the ideal line and move one column or row along the longer side |
| `LineDrawing.OnLineIsRounded` | rust/crates/drivers/src/display/shapes.rs:5-28 | the error invariant determines the point: it is the ideal point rounded |
| `LineDrawing.OnLineBounds` | rust/crates/drivers/src/display/shapes.rs:10-26 | the error term is at most one and a half times the longer extent, and the point stays between the endpoints |
| `LineDrawing.NextPoint` | rust/crates/drivers/src/display/shapes.rs:17-26 | one turn of the loop keeps invariant and bounds |
| `LineDrawing.TracksNext` | rust/crates/drivers/src/display/shapes.rs:17-26 | one turn keeps position and error term on the line, and every new coordinate is an i32 |
| `LineDrawing.Display.DrawLine` | rust/crates/drivers/src/display/shapes.rs:5-28 | the loop terminates, plots exactly the max(dx, dy) + 1 points of the rounded ideal line in order, and no 32-bit sum or product overflows |
| `LineDrawing.Display.DrawRect` | rust/crates/drivers/src/display/shapes.rs:31-38 | four lines: top, bottom, left, right, for every corner and size whose sums fit an i32 |
| `Ipc.PushMeans` | rust/crates/drivers/src/ipc.rs:156-168 | sending appends one message to the queue; bytes of the slot beyond the payload are the old ones |
| `Ipc.PopMeans` | rust/crates/drivers/src/ipc.rs:189-195 | receiving removes the oldest message and no other |
| `Ipc.SendMeans` | rust/crates/drivers/src/ipc.rs:136-172 | the refusals in order; otherwise sender and payload go behind the mail already there, and no other endpoint changes |
| `Ipc.ReceiveMeans` | rust/crates/drivers/src/ipc.rs:174-199 | the refusals in order; otherwise the oldest mail is returned as it was sent and is gone, and no other endpoint changes |
| `Ipc.NewIsEmpty` | rust/crates/drivers/src/ipc.rs:48-70 | a reset endpoint is inactive and has no mail |
| `Ipc.IpcEngine.Init` | rust/crates/drivers/src/ipc.rs:105-116 | every endpoint becomes inactive and empty |
| `Ipc.IpcEngine.Create` | rust/crates/drivers/src/ipc.rs:118-134 | the first inactive endpoint but number 0 is activated and nothing else changes; 0 exactly when there is none or the engine is not initialized |
| `Ipc.IpcEngine.DoSend` | rust/crates/drivers/src/ipc.rs:136-172 | status and table of the abstract send, in the order of its checks, a null pointer with a length included |
| `Ipc.IpcEngine.DoReceive` | rust/crates/drivers/src/ipc.rs:174-199 | status, message and table of the abstract receive, a null message pointer included |
| `Keyboard.LettersAreLetters` | src/drivers/ps2.c:34-36 | is_letter holds of exactly the codes whose unshifted character is a letter |
| `Keyboard.ShiftCapitalizes` | src/drivers/ps2.c:13-28 | on those codes the shifted table has the capital of the same letter |
| `Keyboard.ExtendedMeans` | src/drivers/ps2.c:89-97 | the prefix flag is set exactly after a 0xE0 followed by ignored bytes only |
| `Keyboard.BitMeansHeld` | src/drivers/ps2.c:38-73 | after any scancode history each of the six modifier bits is set if and only if its key was pressed and not released since |
| `Keyboard.CapsLockMeansOdd` | src/drivers/ps2.c:52-54 | Caps Lock is on if and only if its key was pressed an odd number of times |
| `Keyboard.KeyMeans` | src/drivers/ps2.c:82-152 | the key a scancode publishes, told from the scancode history alone |
| `Keyboard.HistoryTypes` | src/drivers/ps2.c:13-152 | the key a scancode publishes on a labelled US keyboard: Caps Lock inverts Shift on letters only, Enter and Backspace type nothing with Shift down, 0xE0 turns four codes into arrows |
| `InputPipeline.SentDecodes` | src/kernel/shell/init.c:251-253 | the shell decodes a published key back to the same 16-bit value |
| `InputPipeline.EncodeIsLittle` | src/drivers/ps2.c:75-80 | a key travels as two bytes, the low one first |
| `InputPipeline.DecodeMeans` | src/kernel/shell/init.c:248-253 | a message of one or two bytes from sender 0 is the key of those bytes, the low one first; any other message is malformed |
| `InputPipeline.IrqMails` | src/drivers/ps2.c:75-152 | an interrupt that returns puts the two bytes of its key, or nothing, behind the messages waiting and handles none |
| `InputPipeline.PollMails` | src/kernel/shell/init.c:240-255 | a receive takes the first waiting message and hands over one key, or changes nothing |
| `InputPipeline.IrqStep` | src/drivers/ps2.c:75-152 | an interrupt panics if and only if it has a key to publish and sixteen are waiting; otherwise it keeps the conservation invariant |
| `InputPipeline.PollStep` | src/kernel/shell/init.c:240-255 | a receive never fails an assertion and keeps the conservation invariant |
| `InputPipeline.PollTakesOne` | src/kernel/shell/init.c:240-255 | a receive takes exactly one waiting message, or changes nothing when there is none |
| `InputPipeline.RunHistory` | src/drivers/ps2.c:82-152 | over any interleaving the history is that of the interrupts, and handled keys are never taken back |
| `InputPipeline.RunConserves` | src/kernel/shell/init.c:236-256 | over any interleaving of interrupts and receives without panic, keys handled followed by keys waiting are exactly the keys the scancodes mean, in order; other endpoints are untouched |
| `InputPipeline.RunPanicsIff` | src/drivers/ps2.c:75-152 | a schedule panics if and only if some interrupt in it publishes a key while sixteen keys wait, counted from the scancodes and the receives alone |
| `InputPipeline.FreshIsConsistent` | rust/crates/drivers/src/ipc.rs:118-134 | a newly created endpoint and a driver at rest satisfy the invariant |
| `InputPipeline.Driver.PublishKey` | src/drivers/ps2.c:75-80 | panics exactly without an endpoint or when the send fails, and otherwise sends the key |
| `InputPipeline.Driver.UpdateModifiers` | src/drivers/ps2.c:38-56 | the switch over make codes is the abstract modifier update |
| `InputPipeline.Driver.ClearModifiers` | src/drivers/ps2.c:58-73 | the switch over break codes is the abstract modifier update |
| `InputPipeline.Driver.ReadScancode` | src/drivers/ps2.c:82-152 | the state machine of keyboard_handler: modifiers, prefix and the key it publishes |
| `InputPipeline.Driver.KeyboardHandler` | src/drivers/ps2.c:82-152 | one interrupt of the abstract machine on the real table; a panic finds sixteen keys waiting |
| `InputPipeline.Driver.PollOnce` | src/kernel/shell/init.c:240-254 | one receive of the abstract machine on the real table; the assertions of the source cannot fail |
| `ShellInput.Console.Interrupt` | src/drivers/ps2.c:82-152 | an interrupt leaves line, cursor and history alone and keeps the whole input path consistent |
| `ShellInput.Console.HandleOne` | src/kernel/shell/init.c:240-254 | one turn of the polling loop: the oldest waiting key reaches the editor |
| `ShellInput.Console.Deliver` | src/drivers/ps2.c:82-152 | a burst of interrupts adds its scancodes to the history and leaves the input path consistent, unless one of them finds sixteen keys waiting |
| `ShellInput.Console.PollInput` | src/kernel/shell/init.c:236-256 | with any scancodes arriving between the turns, the polling loop ends with no key waiting, and line, cursor and history are the answer of the editor to every key of every scancode delivered; the only panic is an interrupt that finds sixteen keys waiting |
| `Editor.KeyValid` | src/kernel/shell/init.c:138-234 | every key keeps at most 255 printable characters, the cursor inside the line and the history position inside the kept lines |
| `Editor.KeyHistory` | src/kernel/shell/init.c:149-161 | only Enter on a non-empty line adds to the history, and Up and Down show one of the last 32 lines or the empty line |
| `Editor.KeyOnLine` | src/kernel/shell/init.c:163-234 | Backspace, Left, Right and the characters 32 to 126 act on the text before and behind the cursor as a two-stack editor of 255 characters does; every other key but Enter, Up and Down changes nothing |
| `Editor.EnterMeans` | src/kernel/shell/init.c:139-161 | Enter leaves an empty line and adds the line to the history if it is not empty |
| `Editor.EnterRecalls` | src/kernel/shell/init.c:149-204 | after Enter, n times Up shows the n-th line back, the line just entered first, and never goes past the last 32 |
| `Editor.UpMeans` | src/kernel/shell/init.c:199-204 | Up shows the next older of the last 32 lines with the cursor at its end, and rests at the oldest |
| `Editor.DownMeans` | src/kernel/shell/init.c:206-214 | Down shows the next newer line, then the empty one, and rests there |
| `Editor.EraseUndoesInsert` | src/kernel/shell/init.c:163-185 | Backspace undoes typing if and only if the line had room or the cursor is at the start |
| `Editor.DownUndoesUp` | src/kernel/shell/init.c:199-214 | Down after an Up that moved returns to the same history position and shows its line |
| `Editor.DownRestsIff` | src/kernel/shell/init.c:206-214 | Down changes nothing if and only if the history position is at the bottom |
| `Editor.FirstDownClears` | src/kernel/shell/init.c:206-214 | Down before anything was submitted clears whatever has been typed |
| `Editor.KeysConcat` | src/kernel/shell/init.c:138-234 | handling a key sequence can be cut anywhere |
| `Editor.HistoryGrows` | src/kernel/shell/init.c:149-157 | no key sequence changes or drops a submitted line |
| `Editor.TypingInserts` | src/kernel/shell/init.c:216-224 | typing a text puts it at the cursor between what was there, while the line has room |
| `Editor.UpWalks` | src/kernel/shell/init.c:199-204 | n times Up shows the n-th line back, never going past the oldest of the last 32 |
| `LineEditor.Shell.CopyToSlot` | src/libkern/string.c:18-28 | the copy puts the line and its terminator into one history slot and changes no other slot |
| `LineEditor.Shell.SetFromSlot` | src/kernel/shell/init.c:128-136 | the buffer holds the recalled line, terminated, with length and cursor at its end |
| `LineEditor.Shell.SaveLine` | src/kernel/shell/init.c:149-154 | slot i mod 32 holds line i for each of the last 32 submitted lines, also after a slot is reused |
| `LineEditor.Shell.Enter` | src/kernel/shell/init.c:139-161 | Enter on the buffers is the abstract submission |
| `LineEditor.Shell.Backspace` | src/kernel/shell/init.c:163-170 | shifting left in place is the abstract deletion |
| `LineEditor.Shell.InsertChar` | src/kernel/shell/init.c:216-224 | shifting right in place is the abstract insertion |
| `LineEditor.Shell.DoUp` | src/kernel/shell/init.c:199-204 | Up on the ring of slots is the abstract recall |
| `LineEditor.Shell.DoDown` | src/kernel/shell/init.c:206-214 | Down on the ring of slots is the abstract recall |
| `LineEditor.Shell.ShiftLeft` | src/kernel/shell/init.c:165-167 | the forward loop moves the tail one place left without losing a character |
| `LineEditor.Shell.ShiftRight` | src/kernel/shell/init.c:217-219 | the backward loop moves the tail one place right without losing a character |
| `LineEditor.Shell.HandleKey` | src/kernel/shell/init.c:138-234 | every key does to the buffers what the abstract editor does to text, cursor and history |
| `Format.DigitsReadBack` | src/libkern/string.c:170-178 | digits read back to the value, for every value and every base from 2 to 36 |
| `Format.PaddedReadsBack` | src/libkern/string.c:160-192 | the padded digits read back to the value and have the width asked for, or as many digits as needed |
| `FormatMeaning.FlagsRead` | src/libkern/stdio/buffer.c:27-60 | zero flag, width and length modifier written in front of a conversion character are read back |
| `FormatMeaning.FormatMeans` | src/libkern/stdio/buffer.c:22-173 | a format written piece by piece renders to the texts of its pieces in order: d and u read back in base 10, x in 16, o in 8, b in 2, p as 0x and eight digits in base 16, with zeros in front only to fill the width; c, s, %% and unknown conversions as they stand |
| `Format.NoLeadingZero` | src/libkern/string.c:170-178 | a positive number has no leading zero without padding |
| `Format.DigitsFit` | src/libkern/stdio/buffer.c:16-16 | a number below 2^n has at most n digits in any base, so 64-bit numbers fit the digit buffer |
| `Format.SignedReadsBack` | src/libkern/stdio/buffer.c:65-83 | a signed conversion reads back to its number, the most negative included |
| `Format.PanicsIff` | src/libkern/stdio/buffer.c:22-173 | a format with a meaning panics if and only if one of its conversions is d, i, u, x, o or b with a width above 32 |
| `Format.WideNumberPanics` | src/libkern/stdio/buffer.c:36-43 | for instance %33d, which passes the limit of kvsnprintf, panics for every number |
| `Format.EmitOne` | src/libkern/stdio/buffer.c:8-14 | storing a character while there is room for it and a NUL keeps the buffer at the truncated rendering |
| `Format.FinishedMeans` | src/libkern/stdio/buffer.c:174-179 | the finished buffer character by character: the text as far as it fits, one NUL behind it, and what was there before from then on |
| `Printf.UvalueToStr` | src/libkern/string.c:160-192 | panics exactly on a null buffer or a bad base or width; otherwise any buffer that holds the padded digits starts with them |
| `Printf.WriteDigits` | src/libkern/string.c:168-178 | the loop leaves the digits in reverse, in any buffer that holds them |
| `Printf.ReverseInPlace` | src/libkern/string.c:184-189 | the swapping loop reverses the first n characters |
| `Printf.ScanSpec` | src/libkern/stdio/buffer.c:27-60 | the flag, width and length loops parse the abstract specification |
| `Printf.EmitChar` | src/libkern/stdio/buffer.c:8-14 | EMIT_CHAR counts every character and stores those that fit |
| `Printf.EmitSigned` | src/libkern/stdio/buffer.c:65-83 | sign and magnitude, computed in unsigned 64-bit arithmetic, are the abstract rendering |
| `Printf.EmitConversion` | src/libkern/stdio/buffer.c:64-169 | each conversion emits its abstract rendering, and panics exactly when that does |
| `Printf.ScanOne` | src/libkern/stdio/buffer.c:23-172 | one turn of the scanning loop emits what one conversion or character contributes to the rendering |
| `Printf.Scan` | src/libkern/stdio/buffer.c:22-173 | the scanning loop emits the whole rendering, whatever the buffer holds |
| `Printf.Kvsnprintf` | src/libkern/stdio/buffer.c:18-182 | the buffer holds exactly the first min(size - 1, n) characters of the rendering and a NUL, the rest of it is untouched, and the result n does not depend on size; it panics if and only if a conversion of the format is too wide |
| `Screen.PutValid` | src/drivers/terminal.c:87-127 | every character keeps the screen its size and the cursor on it |
| `Screen.BackspaceUndoes` | src/drivers/terminal.c:105-126 | Backspace after a plain character restores the cursor and leaves a blank if and only if the character did not scroll the screen (or the screen has one cell) |
| `Screen.ScreenIsWindow` | src/drivers/terminal.c:87-165 | for every text the screen shows the last rows of a roll of paper on which the text is printed with newline, tab stops of four, erasing backspace and wrapping; scrolling loses and changes no row |
| `Screen.ClearedIsBlank` | src/drivers/terminal.c:44-56 | a cleared screen is such a view of blank paper |
| `Screen.TextAfterNewline` | src/drivers/terminal.c:87-165 | text behind a newline lands at the start of the row below, a fresh blank one if the screen scrolls |
| `Screen.TabMeans` | src/drivers/terminal.c:93-103 | a tab goes to the next multiple of four, or starts the next row when that is past the edge |
| `Screen.TextInRow` | src/drivers/terminal.c:118-120 | plain text that fits before the right edge lands in consecutive cells of its row and changes nothing else |
| `Screen.FlattenLength` | src/drivers/terminal.c:76-77 | the rows together have height times width cells |
| `Screen.FlattenScrolled` | src/drivers/terminal.c:154-160 | scrolling the rows is dropping width cells of the flat buffer and appending a blank row |
| `Screen.FlattenUpdate` | src/drivers/terminal.c:76-77 | cell (x, y) of the rows is cell y * width + x of the flat buffer |
| `Terminal.TextTerminal.constructor` | src/drivers/terminal.c:27-42 | a terminal of any size up to 65532 columns starts blank with the cursor at the top left |
| `Terminal.TextTerminal.Clear` | src/drivers/terminal.c:44-56 | every cell becomes blank and the cursor goes to the top left |
| `Terminal.TextTerminal.CopyUp` | src/drivers/terminal.c:154-156 | the forward copy moves every cell up one row; it never reads a cell it has overwritten |
| `Terminal.TextTerminal.BlankLastRow` | src/drivers/terminal.c:158-160 | only the last row changes, and becomes blank |
| `Terminal.TextTerminal.Scroll` | src/drivers/terminal.c:146-165 | the flat buffer becomes the rows without the top row, with a blank one below |
| `Terminal.TextTerminal.PutChar` | src/drivers/terminal.c:87-127 | every character does to the flat buffer and 16-bit cursor what the row model says |
| `Terminal.TextTerminal.Write` | src/drivers/terminal.c:129-132 | for every string the flat buffer equals the row model of the screen |

## Left out

- Masks, shifts and ORs of disjoint fields are written with `/`, `%` and `+`; the frame bitmap keeps real bit operations.
- The TLB, `invlpg`, CR3 loads and the accessed and dirty bits: every walk reads the current tables.
- Port input, ACPI enabling, GDT, IDT, PIC, PIT, CMOS and VGA cursor registers: hardware effects without logic of their own.
- What the ACPI code does with the tables it maps, and stores through ACPI windows, which it never makes: the bytes a window shows are those of the request, see WindowContents.
- KernelHeap.Allocator.Kmalloc: its loads and stores go to an array with a word at each multiple of four; HeapOnPages shows that the words a call changes are stores through the page tables and that the mapped heap reads like the array, but the single loads and stores are not routed through the MMU walk.
- FrameAllocator.Pmm.Init: the boot information, the memory map and the module table come as byte strings of the sizes the source reads, not through the page tables; the information structure is 118 bytes long.
- PageMapper.Vmm.ClearTable: clears the table by words, where memset goes by bytes.
- Runs that map pages at or above 0xFFC00000, where the page tables themselves appear: Paging.WindowMapsDirectory and Paging.WindowValidIff say what one such call does.
- UTF-8 validation of CPIO names is a predicate parameter; the CPIO and ACPI checksums, which the code does not verify.
- LineDrawing.Display.DrawLine: the endpoints are at most 0x2AAAAAAA apart in each direction, which is more than 2^29; draw_pixel records the point instead of clipping and storing it.
- LineDrawing.Display.DrawRect: sizes up to the same extent, with every sum the source forms an i32.
- Printf.Kvsnprintf: `%f` and formats that end inside a conversion have no meaning here and are excluded by the precondition; size_t counters do not wrap, and the result is not narrowed to int.
- InputPipeline.Driver.PollOnce: one turn of the polling loop, so that interrupts can come in between; in ShellInput.Console.PollInput they come from a finite list, since endless typing would keep the loop running.
- LineEditor.Shell.HandleKey: leaves out drawing on the terminal and shell_execute; history_count does not wrap.
- LineEditor.Shell.Enter: the same, and the prompt; Backspace and InsertChar leave out the redrawing.
- The terminal on a framebuffer, its cursor movements, and widths above 65532, where a tab would wrap the 16-bit column.
- Terminal.TextTerminal.constructor: the screen has at least one row and one column, and at most 65532 columns.
- Printf.EmitConversion: without `%f`, as for Kvsnprintf.
- Printf.Scan: the same restriction on formats as Kvsnprintf.
- `atoi`, `strtok`, `strcmp` and the shell's commands: straightforward loops that would add only easy members.
- Framebuffer copies, fonts, display wrappers, ring 3 entry, system calls, boot assembly beyond the page directory, and the build scripts.
