# A model of ArgusOS and what holds of it

This project models the subsystems of the ArgusOS kernel that are state plus arithmetic, and proves what
they keep over every run. Code that the kernel runs by changing state in place is a class whose methods are
proved against specifications; code that only computes is functions and lemmas.

| file | what it models |
|---|---|
| `Pmm.dfy` | the bitmap page allocator |
| `PageTables.dfy`, `TableDepth.dfy`, `Paging.dfy`, `UserSpace.dfy` | four-level page tables (Intel SDM volume 3A, section 4.5): how deep a walk gets, the kernel's identity map with its guard hole, device memory attributes, per-process spaces |
| `ElfImage.dfy`, `LoadPlan.dfy`, `UserView.dfy`, `Owners.dfy`, `Loader.dfy` | validation of user images; what a load places and needs, what a program sees of its memory, who holds which endpoint; loading, releasing and the process slots that own pages |
| `Heap.dfy` | the first-fit kernel heap with its linked headers |
| `Surface.dfy`, `Compositor.dfy` | drawing surfaces and the damage compositor |
| `Scheduler.dfy` | dispatch, system calls, interrupts, waits and round-robin selection |
| `Capability.dfy`, `Ipc.dfy` | generation-checked handles, capability tables, message endpoints |
| `Fat32.dfy`, `RamFs.dfy`, `PacketCore.dfy` | the FAT32 reader, the RAM file system, checksums, frame inspection and packet queues |
| `Ps2Ring.dfy` | the interrupt-fed input rings, step by atomic step |
| `Common.dfy`, `Counting.dfy`, `Rings.dfy` | shared types and mathematics: options, bytes, intervals, distinct sequences, ring buffers |

`dafny verify dfyconfig.toml` checks everything.

How to read the model:

- Physical memory is a page allocator, a map from table frame and index to page-table words, and a map from
  frame to 4096 bytes. A word is its address field and the set of its other bits.
- A predicate that takes a number `n` and calls itself with `n - 1` ("folded") is its own body seen from a
  distance: it keeps a large definition closed until a lemma opens it.
- What the hardware or the user decides is a parameter: the firmware memory map, the time, the events of a
  user program, the sectors a device can read, the initial content of the screen.
- The scheduler keeps a log of its rounds and of the keys each slot was given, a PS/2 ring one of the items
  offered, accepted and delivered. The logs are ghost, and the theorems about runs speak of them.
- The main results over whole runs are `Heap.RunKeeps`, `Compositing.Compositor.Play`,
  `Processes.ProcessTable.Play`, `Scheduling.Scheduler.Play`, `Scheduling.Scheduler.Serve`, `Ipc.Fifo`,
  `Ipc.StaleHandle`, `Capabilities.StaleHandle` and `Ps2Ring.EveryInterleaving`. The exact conditions under
  which the layers below succeed are in `Paging.KernelSpace.Init`, `UserSpaces.AddressSpace.MapPage` and
  `Processes.Process.LoadElf`.
- What a function of the model computes from bytes or fields is tied to a second statement that does not use
  it: `ElfImages.AcceptedExactly` and `Processes.Process.ImageSeen` for program headers,
  `Paging.KernelSpace.Init` for byte positions of the boot layout, `Scheduling.TurnHandled` for the fields of a
  process, `Fat32.BootRead`, `Fat32.LinkRead` and `Fat32.RecordRead` for what stands on a disk,
  `PacketCore.AcceptedExactly` for frame offsets.

Where a natural claim is false of the code, the model keeps the code, gives an input and says exactly when the
claim holds:

- The sixteen-page budget of an image is checked by a subtraction that wraps around
  (`src/elf_loader.c:137-138`): `ElfImages.OversizedAccepted` is a file of 4096 bytes that is accepted with
  seventeen pages, and `ElfImages.BudgetExact` says the budget holds exactly when no single segment is longer
  than sixteen pages. Loading needs that, because the page list of a process has sixteen entries.
- Replacing a panel does not damage the rows the old panel leaves (`src/compositor.c:64-76`):
  `Compositing.Compositor.ReplacePanel` says that the next presentation repairs the screen exactly when on
  those rows the old panel shows what lies below it, and `Compositing.StalePanel` leaves a wrong pixel.
- A page-table entry keeps 40 address bits, so `UserSpaces.MakeEntry` holds its frame exactly below 2^52;
  `UserSpaces.FrameTooHigh` is the entry of frame 2^52.
- The range checks of the system calls look at the low 48 bits of an address only (`src/process.c:495-530`,
  `src/paging.c:326-361`), while the processor faults on an address that is not canonical:
  `Processes.Process.StackAlias` is an address that passes and faults, and
  `UserSpaces.AddressSpace.ClearedExact` says that a range that passes can be accessed exactly when it ends at
  2^47 or below. `Processes.ProcessTable.Receive` says when the kernel itself faults on such a range.
- A device range that ends at 2^64 slips past the test of `paging_mark_mmio` (`src/paging.c:198-202`):
  `Paging.RangeTestWraps` is such a range, `Paging.RangeTest` says that there are no others, and
  `Paging.KernelSpace.MarkMmio` says that it is refused after everything from its start to the end of the map
  was marked, so that a refusal changes an attribute exactly for such a range with a page not yet uncached.
- `paging_init` adds a page to the addresses of the APICs and multiplies the page count without a test for
  wrap-around (`src/paging.c:146-156`), and takes the base of an empty range for its end:
  `Paging.KernelSpace.MappedExactly` says that the mapping holds every listed byte exactly when none of the
  three sums wraps, and is then the least one exactly when no empty range lies beyond the bytes;
  `Paging.KernelSpace.WrapExample` and `Paging.KernelSpace.EmptyExample` are layouts where it fails.
- Asking for a capability of type NONE without rights is answered by an empty slot:
  `Capabilities.EmptySlotResolves` says that this is the only request that no grant stands behind.
- A 16-bit word of zeros and a word of ones have the same checksum: `PacketCore.ZerosForOnes` is such a change,
  and `PacketCore.WordDetected` says that these are the only changes of one word that go unnoticed.

## Model

| member | source | states |
|---|---|---|
| `Pmm.PageAllocator.CountersAreSizes` | src/pmm.c:155-165 | in every valid state the two counters are the cardinalities of the managed and of the free pages |
| `Pmm.PageAllocator.MakeUsable` | src/pmm.c:21-27 | a page not yet managed becomes managed and free; bitmaps and counters keep agreeing with the page sets |
| `Pmm.PageAllocator.ReservePage` | src/pmm.c:29-35 | the page is neither managed nor free afterwards; nothing else changes |
| `Pmm.PageAllocator.ReserveRange` | src/pmm.c:37-50 | exactly the pages a byte range touches are withdrawn, also when the range runs past the end of the address space |
| `Pmm.PageAllocator.Init` | src/pmm.c:52-109 | whatever overlaps the memory map has, a page is managed exactly when it is conventional memory from 1 MiB on and holds no byte of the kernel image, the boot information, the kernel stack, the bitmap, the memory map, the framebuffer or the page at the RSDP; all managed pages are free |
| `Pmm.PageAllocator.KeptExactly` | src/pmm.c:37-105 | a page is reserved by some boot range exactly when it lies below 1 MiB or holds a byte of one of the named ranges |
| `Pmm.PageAllocator.FindRun` | src/pmm.c:115-135 | the search finds the lowest free run of the asked length, and finds none only if there is none |
| `Pmm.PageAllocator.AllocPages` | src/pmm.c:115-135 | the lowest free run leaves the free pages; 0 exactly when no such run exists, and then nothing changes |
| `Pmm.PageAllocator.AllocPage` | src/pmm.c:111-113 | the lowest free page is handed out, or 0 exactly when none is free |
| `Pmm.PageAllocator.ReleasePages` | src/pmm.c:141-153 | all or nothing: pages become free exactly if every one is managed and in use |
| `Pmm.PageAllocator.FreePage` | src/pmm.c:137-139 | frees one page exactly if it is managed and in use, so a double free is refused |
| `Pmm.PageAllocator.Validate` | src/pmm.c:155-165 | the recount of both bitmaps answers whether the counters are right |
| `PageTables.WalkPut` | src/paging.c:68-92 | a word that the walk of a page does not read may change without changing its translation |
| `PageTables.AttachResolve` | src/paging.c:68-92 | hanging a zeroed table under an absent word changes no translation |
| `PageTables.UserAttachResolve` | src/paging.c:271-324 | the same for a user root |
| `Paging.SplitKeeps` | src/paging.c:94-125 | the 512 small pages that replace a large page keep its target, its NX and its cache bits |
| `TableDepth.TablesStep` | src/paging.c:68-92 | mapping one more region at the end of an identity map costs exactly the tables that the walk to it lacks |
| `Paging.KernelSpace.MapLargePage` | src/paging.c:68-92 | one 2 MiB region becomes identity mapped with the given bits and no other translation changes; it succeeds exactly when the tables missing on the way fit into the free pages, and takes exactly those |
| `Paging.KernelSpace.Unmap4kPage` | src/paging.c:94-125 | exactly one 4 KiB page disappears and all other translations stay, also inside a split large page; it succeeds exactly when a page table covers the page, or a large page does and a page for the new table is free |
| `Paging.KernelSpace.Init` | src/paging.c:132-191 | succeeds exactly when the guard page and the address limit are proper and the free pages suffice for the tables; then exactly the addresses below the mapped limit off the guard page are mapped, each to itself, with NX exactly when the processor has it and no byte of the 2 MiB region belongs to the kernel image, and uncached exactly when a byte of the region belongs to the framebuffer, an APIC page or a device of the memory map; every byte of the boot ranges, the APIC pages and the managed pages lies below the limit exactly when none of three unguarded sums wraps, and the limit is then the least one exactly when no empty range lies beyond those bytes |
| `Paging.KernelSpace.MappedExactly` | src/paging.c:146-162 | the two statements about the mapped limit, for every layout whose limit is found |
| `Paging.KernelSpace.TooHigh` | src/paging.c:146-160 | with a proper guard no limit is found exactly when a range ends above 2^47 or one of the three other ends, taken modulo 2^64, does |
| `Paging.KernelSpace.WrapExample` | src/paging.c:155 | a local APIC on the last page of the 64-bit space is accepted and not mapped |
| `Paging.KernelSpace.EmptyExample` | src/paging.c:153-154 | an empty framebuffer with a high base makes the mapping larger than the bytes need |
| `Paging.OverlapsMeets` | src/paging.c:34-40 | below 2^47 the overlap test finds exactly whether the 2 MiB share a byte with the range |
| `Paging.KernelSpace.MarkMmio` | src/paging.c:193-232 | succeeds exactly for a non-empty range below the mapped limit and marks exactly its 2 MiB regions; a range from below the limit to 2^64 is refused after the regions up to the limit were marked, every other refusal changes nothing; no request changes which pages are mapped and where, so the guard stays absent |
| `Paging.RangeTest` | src/paging.c:198-202 | the range test passes exactly the ranges below the limit and those from below the limit to 2^64 |
| `Paging.RangeTestWraps` | src/paging.c:198-202 | a range of the latter kind that passes |
| `UserSpaces.MakeEntry` | src/paging.c:319-322 | the stored word has the frame and the flags apart exactly for frames below 2^52 |
| `UserSpaces.FrameTooHigh` | src/paging.c:319-322 | the entry of frame 2^52 names frame 0 and has bit 52 set |
| `UserSpaces.PutLeaf` | src/paging.c:271-324 | writing one leaf word of a user tree is a one-point update of its translations |
| `UserSpaces.UserFrame` | src/paging.c:326-361 | a space whose own tables are untouched keeps all its translations |
| `UserSpaces.AddressSpace.AllocateUserTable` | src/paging.c:234-243 | a zeroed frame joins the owned tables, or 0 exactly when sixteen are owned or memory is exhausted |
| `UserSpaces.AddressSpace.Create` | src/paging.c:245-269 | a fresh root shares every kernel entry and maps no user page; on failure every page is back |
| `UserSpaces.AddressSpace.MapPage` | src/paging.c:271-324 | succeeds exactly for a page-aligned address of the user slot that is not mapped and a page-aligned frame, when the missing tables fit into the free pages and the limit of sixteen; then the page maps to its frame with exactly the asked bits and every other translation is as before; on any failure none changes; only owned tables are written |
| `UserSpaces.Attributes` | src/paging.c:319-322 | a user page is writable exactly if asked, and has NX exactly if NX is on and it is not to be executed |
| `UserSpaces.AddressSpace.Translate` | src/paging.c:326-361 | the walk gives frame plus offset and the leaf bits, and depends on the low 48 bits only |
| `UserSpaces.AddressSpace.Destroy` | src/paging.c:373-378 | exactly the pages of the owned tables become free |
| `UserSpaces.AddressSpace.RangeAccessible` | src/process.c:495-530 | passes exactly when the low 48 bits of every address of the range name a page mapped for the user, writable if that is asked, and the range does not wrap around |
| `UserSpaces.AddressSpace.ClearedExact` | src/process.c:495-530 | a range that passes can be accessed by the processor, every byte of it, exactly when it ends at 2^47 or below |
| `UserSpaces.AddressSpace.PassesExact` | src/process.c:495-530 | an address that passes can be accessed exactly below 2^47, and then at the frame and with the bits the check saw |
| `UserSpaces.AddressSpace.AccessiblePasses` | src/process.c:495-530 | the check refuses no address that the processor would let the program access |
| `UserSpaces.AddressSpace.AliasCleared` | src/paging.c:326-361 | every range that can be accessed has 2^16 - 1 copies that pass and of which no byte can be accessed |
| `ElfImages.ValidateUserImage` | src/elf_loader.c:61-170 | accepts exactly the images whose headers are admissible one after the other, with one stack header and an entry in code, and records their segments in order |
| `ElfImages.AcceptedExactly` | src/elf_loader.c:99-169 | acceptance without the order of the scan: as long as no header alone asks for more than sixteen pages, the accepted header tables are exactly those in which every header is sound, no address belongs to two headers, the pages sum up to sixteen at most, exactly one header is a stack, and a read-and-execute header holds the entry in its file part |
| `ElfImages.FileHeaderBytes` | src/elf_loader.c:72-97 | the fixed part is accepted exactly for the given bytes at offsets 0 to 6, 16 to 23 and 48 to 55, one to nine headers, and a table inside the file |
| `ElfImages.NoCollision` | src/elf_loader.c:141-150 | the loop over earlier segments finds whether any page range meets |
| `ElfImages.AcceptedSegments` | src/elf_loader.c:99-169 | accepted segments are page aligned, inside the user range and the file, never writable and executable, and share no page |
| `ElfImages.BudgetExact` | src/elf_loader.c:137-139 | an accepted image has at most sixteen pages exactly when none of its segments alone has more |
| `ElfImages.OversizedAccepted` | src/elf_loader.c:137-139 | a file of 4096 bytes whose one loadable segment has seventeen pages is accepted |
| `ElfImages.FileRead` | src/elf_loader.c:61-97 | every list of at most nine headers whose fields fit their places is what the validator reads from some file with a proper fixed header |
| `Processes.Process.Release` | src/process.c:178-193 | tables, image, stack and surface pages are all free again, and the endpoint is destroyed |
| `Processes.Process.FillPage` | src/process.c:367-378 | the page holds the copied file bytes and zeros |
| `Processes.Process.LoadSegment` | src/process.c:355-389 | each page of the segment is placed at its address with the segment's rights and the next 4096 file bytes, zero padded; it succeeds exactly when the free pages suffice for the pages and, if there is none yet, their table |
| `Processes.Process.GrantAll` | src/process.c:248-268 | the four grants of an application never fail on a fresh table, and leave exactly those capabilities |
| `Processes.Process.Prepare` | src/process.c:195-273 | stack, surface, endpoint and capabilities are in place, or everything taken is back; it succeeds exactly for a non-zero id when the kernel leaves the user slot free, the free pages suffice with a run for the surface above the five lowest, and for an application an endpoint is unused |
| `Processes.Process.LoadFlat` | src/process.c:286-331 | the space holds the stack and the file as read-only code, and nothing else, or everything is back; it succeeds exactly for a file of one to sixteen pages with what preparing needs and its pages and table |
| `Processes.Process.LoadElf` | src/process.c:333-393 | the space maps exactly stack, surface and the pages of the accepted image, or everything taken is back and no frame or endpoint in use has changed; it succeeds exactly when the image is accepted, the id is not zero, the kernel leaves the user slot free, the free pages suffice and for an application an endpoint is unused, so neither the limit of sixteen tables nor a page mapped twice ever stops it |
| `LoadPlans.BasedCount` | src/paging.c:234-243 | a process never needs more than six tables |
| `LoadPlans.RunLeft` | src/process.c:195-273 | after the lowest pages were taken there is a run of pages exactly when there was one above them |
| `Processes.Process.ImageSeen` | src/process.c:333-393 | for every loadable program header of an accepted file, reading its address plus any offset up to the end of its last page gives the byte of the file at its file offset, or zero behind its file part, on a page that is writable exactly by the header flags and has NX exactly when NX is on and the flags do not allow execution |
| `Processes.Process.OnlyImage` | src/process.c:333-393 | an address of the image range is mapped only if some loadable header covers it |
| `Processes.Process.FlatSeen` | src/process.c:286-331 | a flat file reads as itself from the code address on, with zeros behind it, read-only and executable |
| `Processes.Process.StackSeen` | src/process.c:204-217 | the stack is one page of zeros, writable and not executable |
| `Processes.Process.NoWritableCode` | src/process.c:333-393 | with NX on, no mapped user page is both writable and executable |
| `Processes.Process.GuardUnmapped` | src/process.c:204-217 | the page below the stack is not mapped |
| `Processes.Process.SurfaceSeen` | src/process.c:572-593 | the surface is seen contiguous, zero, writable and not executable |
| `Processes.Process.MappingIsolated` | src/process.c:572-593 | the test passes exactly when the process is an application with a surface whose first and last byte are mapped where its frames are, writable and not executable |
| `Processes.Process.AlwaysIsolated` | src/process.c:572-593 | the mapping of every loaded application passes the test |
| `Processes.Process.Undisturbed` | src/process.c:178-393 | loading, releasing or running another process leaves a process its pages, its translations and its contents |
| `Processes.Process.UserStore` | src/process.c:856-881 | a store by the program faults exactly when the address is not canonical or not mapped for it to write; otherwise the program sees the byte at that address and no other change, and no page of another process and no read-only page changes |
| `UserViews.StoreSeen` | src/process.c:333-393 | storing a byte through the page tables changes what the program sees at one address, because no frame is mapped twice |
| `Processes.Process.CopyIn` | src/ipc.c:106-109 | a copy to addresses the program may write leaves the data there and every other byte it sees as it was |
| `Processes.Process.StackAlias` | src/process.c:495-530 | in any loaded process the address 2^48 above the stack passes the check for writing and faults |
| `Processes.Process.Start` | src/process.c:931-943 | loading and the mapping test: it succeeds exactly for an application whose load has what it needs, so the test never fails, and otherwise everything is back |
| `Processes.Process.StartStop` | src/process.c:1085-1102 | starting and stopping restores the free pages and the endpoints in use |
| `Processes.ProcessTable.Start` | src/process.c:931-943 | the same for a slot: its pages were free and are apart from those of every other slot and of the kernel, its endpoint is open for it alone, and the other slots keep theirs |
| `Processes.ProcessTable.Stop` | src/process.c:1095-1102 | exactly the pages of the slot become free, its endpoint is closed, and the other slots keep theirs |
| `Processes.ProcessTable.Store` | src/process.c:856-881 | whatever address the program in a slot stores to, nothing of another slot or of the kernel changes, and its own translations and read-only pages stay |
| `Processes.ProcessTable.Restart` | src/process.c:1104-1112 | a slot in use is released and loaded anew: it shows the new image or is blank, and no page or endpoint is lost; it succeeds exactly for an application with a good image when the free pages together with those of the slot suffice, and the slot had an endpoint or one is unused |
| `Processes.ProcessTable.Receive` | src/process.c:792-828 | answers nothing, a refusal or the first message, exactly by the queue, the buffer size and the range check; the message leaves the queue and stands in the buffer as the program sees it, with no other change; a buffer that passes the check above 2^47 makes the copy fault |
| `Processes.ProcessTable.Play` | src/process.c:619-1112 | in every run of restarts, stops, messages and stores by the programs the pages of the slots stay apart and in use, every endpoint of a slot stays open for that slot alone, and neither a page nor an endpoint is lost; a slot that is neither stopped nor restarted keeps its endpoint, every translation and the contents of its read-only pages |
| `Processes.ProcessTable.ImageStays` | src/process.c:333-393 | after any run in which a loaded program goes on, what its read-only headers loaded still reads as its file |
| `Processes.ProcessTable.FirstState` | src/process.c:472-473 | a table of blank slots over a valid kernel is a state from which runs begin |
| `Processes.ProcessTable.Boot` | src/process.c:472-473 | creates such a table |
| `Owners.Gained` | src/ipc.c:47-60 | a new endpoint is held by its process alone, and the endpoints of nobody stay as they are |
| `Owners.Dropped` | src/ipc.c:62-70 | an endpoint given up is closed and the others stay held |
| `Heap.AllocateKeeps` | src/heap.c:58-83 | carving or taking a block keeps the blocks tiling the heap with no two free neighbours |
| `Heap.AllocateLive` | src/heap.c:58-83 | allocation adds exactly one live block and keeps the others |
| `Heap.ReleaseKeeps` | src/heap.c:85-103 | freeing and merging keeps the blocks tiling the heap with no two free neighbours |
| `Heap.ReleaseLive` | src/heap.c:85-103 | freeing removes exactly one live block |
| `Heap.RunKeeps` | src/heap.c:58-103 | every run of allocations and frees keeps the heap well formed |
| `Heap.LiveDisjoint` | src/heap.c:58-83 | payloads of different live blocks share no byte |
| `Heap.Conservation` | src/heap.c:105-121 | free bytes, used bytes and 32 bytes for each block but the first add up to the heap's total |
| `Heap.FreeAllRestores` | src/heap.c:33-40 | freeing all live blocks in any order leaves the single initial block |
| `Heap.MergeLinks` | src/heap.c:33-40 | unlinking a merged header leaves headers and blocks in agreement both ways |
| `Heap.CarveLinks` | src/heap.c:66-79 | the header writes of a split leave headers and blocks in agreement both ways |
| `Heap.KernelHeap.Init` | src/heap.c:42-56 | takes the lowest free run of pages of its length and lays out one free block, or fails exactly when there is no such run |
| `Heap.KernelHeap.Kmalloc` | src/heap.c:58-83 | hands out the first fitting block, 16-byte aligned and disjoint from everything live; 0 exactly when nothing fits |
| `Heap.KernelHeap.Kfree` | src/heap.c:85-103 | succeeds exactly for the payload of a live block, so double and stray frees are refused, and then merges both neighbours |
| `Heap.KernelHeap.CountFreeBytes` | src/heap.c:109-114 | the walk over the headers adds up the free blocks |
| `Heap.KernelHeap.CountUsedBytes` | src/heap.c:116-121 | the walk over the headers adds up the live blocks |
| `Heap.KernelHeap.Validate` | src/heap.c:123-145 | passes exactly when some list of blocks tiles the heap, is coalesced and agrees with the headers |
| `Surfaces.Surface.MarkDirty` | src/surface.c:40-70 | the dirty rectangle becomes the hull of itself and the clipped rectangle |
| `Surfaces.Surface.TakeDamage` | src/surface.c:72-78 | hands over the dirty rectangle and clears it |
| `Surfaces.Surface.FillRect` | src/surface.c:89-109 | exactly the clipped rectangle gets the colour, and every changed pixel is dirty |
| `Surfaces.Surface.ScrollRectUp` | src/surface.c:133-171 | rows move up inside the rectangle, the freed rows get the colour, the rest stays, and every changed pixel is dirty |
| `Surfaces.Surface.SoiledHonest` | src/surface.c:40-70 | drawing that marks what it changes leaves no changed pixel outside the dirty rectangle |
| `Compositing.AddDamageCovers` | src/compositor.c:78-117 | merging, appending or overflowing to the whole screen never uncovers a damaged position |
| `Compositing.RaisedPermutes` | src/compositor.c:161-188 | the raise permutes the stacking order |
| `Compositing.FullIsDistinct` | src/compositor.c:330-354 | a stacking order that names every window names each once |
| `Compositing.RaiseElsewhere` | src/compositor.c:161-188 | outside the raised window the topmost window stays the same |
| `Compositing.Compositor.Damage` | src/compositor.c:78-117 | the loop computes the damage list of the specification, which covers what it covered and the new rectangle |
| `Compositing.Compositor.AddWindow` | src/compositor.c:38-62 | the window is clamped into the work area and put on top; the screen stays current |
| `Compositing.Placed` | src/compositor.c:48-51 | a coordinate stays where the window fits, and else puts the window against the far edge |
| `Compositing.TouchExactly` | src/compositor.c:12-19 | two rectangles are merged exactly when a pixel of one is a pixel of the other or next to one |
| `Surfaces.HullLeast` | src/compositor.c:91-107 | the merged rectangle lies in every rectangle that has all pixels of both |
| `Compositing.Compositor.MoveWindow` | src/compositor.c:127-159 | a visible window moves to the clamped place; old and new place are damaged, so the screen stays current |
| `Compositing.Compositor.RaiseWindow` | src/compositor.c:161-188 | the window goes to the top, the others keep their order; the screen stays current |
| `Compositing.Compositor.SetWindowVisible` | src/compositor.c:190-208 | showing or hiding damages the area; the screen stays current |
| `Compositing.Compositor.SetPanel` | src/compositor.c:64-76 | the panel is installed and its rows damaged; the screen stays current unless an earlier panel showed rows the new one leaves |
| `Compositing.Compositor.ReplacePanel` | src/compositor.c:64-76 | after replacing a panel on an exact screen the next presentation is exact if and only if on the rows the new panel leaves every pixel of the old panel equals what lies below it |
| `Compositing.StalePanel` | src/compositor.c:64-76 | a replacement that leaves a wrong pixel with nothing left to repair it |
| `Compositing.Compositor.CollectSurfaceDamage` | src/compositor.c:254-279 | every surface is clean afterwards and the screen stays current, also for hidden windows |
| `Compositing.Compositor.ComposedPixel` | src/compositor.c:281-304 | painting the layers bottom up gives the pixel of the panel, of the topmost window there, or of the background |
| `Compositing.Compositor.Present` | src/compositor.c:306-328 | incremental redraw equals full redraw: every screen pixel is the composed one, and untouched positions were not written |
| `Compositing.Compositor.WindowAt` | src/compositor.c:228-252 | finds the window whose pixel the screen shows there, or none exactly when the background shows |
| `Compositing.Compositor.Play` | src/compositor.c:38-328 | after full damage and any script of additions, moves, raises, shows, hides, drawing and presentations, the final presentation leaves every pixel composed |
| `Scheduling.Scheduler.Handle` | src/process.c:619-854 | any system call or interrupt has its effect field by field: it blocks exactly when it is a wait whose handle resolves with WAIT for the application, no key waits and the deadline is FOREVER or later than now, and then the deadline is that of the wait; exit status, fault vector and sequence number are those of the exit, of the exception and of a newer authorized present, and else stay; the timer preempts exactly when preemption is on; a poll takes the oldest key exactly when it is authorized; it either returns to the program and keeps the invariant, or ends its turn with a state that matches the action |
| `Scheduling.TurnHandled` | src/process.c:619-854 | the specification of one event gives each field of the process these values |
| `Scheduling.Confined` | src/process.c:619-854 | whatever a program does in a turn, its capabilities stay; without an input capability it takes no key and cannot block, without a surface capability it presents nothing |
| `Scheduling.Scheduler.PollInput` | src/process.c:553-561 | the oldest key leaves the ring exactly once |
| `Scheduling.Scheduler.Resume` | src/process.c:619-854 | the events of a program up to the first that ends its turn take effect one after the other, on that process alone, and what it has polled grows by exactly the keys those events got |
| `Scheduling.Scheduler.Dispatch` | src/process.c:856-881 | a ready process comes back with a matching action and state whatever it did, in the state its events lead to and with the keys they polled; nothing else changes and no second process runs |
| `Scheduling.Scheduler.Wake` | src/process.c:883-897 | exactly the blocked processes with an expired deadline become ready |
| `Scheduling.WakeComplete` | src/process.c:883-897 | after a wake pass a blocked process is an application with no key waiting and no expired deadline, and all its accepted keys were polled |
| `Scheduling.Scheduler.NextReady` | src/process.c:899-908 | the first eligible slot from the cursor on, going round, or none |
| `Scheduling.Scheduler.RunReadyOnce` | src/process.c:1018-1026 | a round: wakes, chooses round robin, moves the cursor behind the choice, and the chosen slot is in the state its events lead to with the keys they polled, all other slots as the wake pass left them; the round is appended to the log |
| `Scheduling.Fair` | src/process.c:899-908 | a slot that is eligible in as many successive rounds of the log as there are slots is chosen in one of them, whatever happens in between |
| `Scheduling.Scheduler.Serve` | src/process.c:1018-1026 | successive calls with keys and changes of focus before each: each is a round of the log on the state before it, and a slot that is eligible at the start and keeps its focus gets a turn in one of the first rounds, as many as there are slots, whatever the other programs do as long as they give the processor back |
| `Scheduling.Scheduler.AppInput` | src/process.c:1137-1154 | a key is refused without effect, or it stands behind the waiting keys with the process awake; accepted exactly when it is not zero, the process is active, has presented and is ready or blocked, and fewer than 31 keys wait |
| `Scheduling.Scheduler.SetActive` | src/process.c:1128-1135 | exactly the slots of the application that have presented and are ready, blocked or running become active, and nothing else changes |
| `Scheduling.Scheduler.Launch` | src/process.c:931-953 | given the verdict of the mapping test the slot is exactly as at most 32 turns leave it, with a history that begins anew, or empty again; the result is true exactly when the test passed and the application has presented and is ready or waiting; other slots are untouched |
| `Scheduling.Scheduler.Play` | src/process.c:619-1154 | every run is a sequence of the specified steps; at most the current process is running and blocked applications have empty rings; every slot that stays eligible for as many rounds as there are slots is chosen; over any stretch in which a slot is neither stopped nor started, what waited in its ring followed by the keys accepted since is what its program polled since followed by what waits now; and a process that is blocked and gets no turn is still blocked exactly if since then no key came and no wake pass was at or after the deadline of the wait that blocked it |
| `Scheduling.SleepsUntil` | src/process.c:883-897 | the last of these for any trace of specified steps: no lost wake-up and no early one |
| `Scheduling.StepSleeps` | src/process.c:734-757 | whoever is blocked after a step that let it run made a wait with exactly that deadline, which was FOREVER or still to come |
| `Scheduling.RunAdvances` | src/process.c:619-854 | as long as a slot is neither stopped nor started its present sequence never goes back, and who has exited or faulted stays so with the same status and vector |
| `Scheduling.KeysInOrder` | src/process.c:553-561 | the last of these for any trace of specified steps, with the history of the slot grown by exactly those keys |
| `Scheduling.StepKeys` | src/process.c:619-1154 | a step that does not stop or start a slot adds to its accepted keys exactly the key it accepts and to its polled keys exactly the keys its program gets |
| `Generations.Recurs` | src/capability.c:115-118 | a generation is back at its value exactly after whole multiples of 2^32 - 1 steps |
| `Capabilities.InitialGeneration` | src/capability.c:18-22 | a slot's generation never starts at zero |
| `Capabilities.CapabilityTable.Grant` | src/capability.c:45-64 | the first empty slot takes the capability, or nothing changes and the reason holds |
| `Capabilities.RightsMatrix` | src/capability.c:5-16 | which right may be granted for which kind |
| `Capabilities.CapabilityTable.Resolve` | src/capability.c:66-88 | a handle resolves exactly when it is the present handle of a slot of that kind with those rights, and gives that slot's object |
| `Capabilities.CapabilityTable.Find` | src/capability.c:90-103 | gives the handle of the first fitting slot, which resolves, or 0 exactly when none fits |
| `Capabilities.CapabilityTable.Revoke` | src/capability.c:105-120 | empties exactly the slot the handle names and moves its generation on |
| `Capabilities.StaleHandle` | src/capability.c:66-120 | over any run of grants and revocations a handle resolves again only after a multiple of 2^32 - 1 revocations of its slot |
| `Capabilities.EmptySlotResolves` | src/capability.c:66-88 | some request for a kind with rights is answered by an empty slot exactly when the table has a principal and an empty slot and the request is for NONE without rights |
| `Capabilities.GrantedOnly` | src/capability.c:66-88 | a handle that resolves for another kind than NONE names a granted slot with rights of that kind |
| `Ipc.Endpoints.Create` | src/ipc.c:47-60 | opens the first unused slot under a fresh handle with an empty queue, or 0 exactly when none is unused |
| `Ipc.Endpoints.Destroy` | src/ipc.c:62-70 | closes exactly the endpoint open under the handle and moves its generation on |
| `Ipc.Endpoints.Send` | src/ipc.c:72-93 | appends one message to an open queue that is not full; otherwise nothing changes |
| `Ipc.Endpoints.Peek` | src/ipc.c:120-124 | finds the message that waits first for the receiver of an open endpoint, or none exactly when none waits |
| `Ipc.Endpoints.Receive` | src/ipc.c:95-118 | the oldest message leaves for its receiver if it fits; otherwise nothing changes |
| `Ipc.Fifo` | src/ipc.c:72-118 | while an endpoint is open, what was queued and then sent is what was received and is still queued, in order |
| `Ipc.StaleHandle` | src/ipc.c:29-70 | over any run a handle is open again only after a multiple of 2^32 - 1 destructions of its slot |
| `Ipc.CreateDestroy` | src/ipc.c:47-70 | creating and destroying an endpoint restores the endpoints in use |
| `Fat32.Mount` | src/rust_fat32.rs:443-540 | succeeds exactly for a readable boot sector whose volume lies inside the device and has a table entry for every cluster, and gives that volume |
| `Fat32.BootRead` | src/rust_fat32.rs:443-540 | a boot sector with given numbers at their offsets, whatever its other bytes are, describes exactly the volume with these numbers: the tables behind the reserved sectors, the clusters behind the tables, and the active table of the flags |
| `Fat32.ClusterPlace` | src/rust_fat32.rs:240-251 | every data cluster maps to sectors inside the volume |
| `Fat32.ClustersApart` | src/rust_fat32.rs:240-251 | different clusters share no sector |
| `Fat32.FatPlace` | src/rust_fat32.rs:253-284 | the table entry of a data cluster lies inside the active table, before the data |
| `Fat32.LinkRead` | src/rust_fat32.rs:253-284 | a 28-bit link stored little endian in the active table under any four high bits is read back, with the end, bad and reserved values told apart |
| `Fat32.ShortName` | src/rust_fat32.rs:286-321 | the loops build slash, trimmed base and, if there is one, dot and trimmed extension |
| `Fat32.PathMatches` | src/rust_fat32.rs:331-344 | compares paths up to the case of ASCII letters |
| `Fat32.SameNameIs` | src/rust_fat32.rs:331-344 | paths match exactly when every character is the same or the same letter in the other case |
| `Fat32.ScanRoot` | src/rust_fat32.rs:346-441 | finds the first wanted entry of the directory listing, or reports how the listing ends; it always terminates |
| `Fat32.RecordRead` | src/rust_fat32.rs:286-403 | a record with name, attributes, cluster halves at 20 and 26 and size at 28, whatever its other bytes are, is listed with exactly these values |
| `Fat32.RecordFound` | src/rust_fat32.rs:346-441 | a search by path finds the file whose record stands at a place of the root directory, if all records before it are deleted, of long names, labels or of other names |
| `Fat32.FindIs` | src/rust_fat32.rs:346-441 | a search hits an entry exactly when it is the first wanted one |
| `Fat32.LookupAgrees` | src/rust_fat32.rs:346-441 | an entry listed at a number is found by its path in any letter case at that number or before, and at it when names are unique |
| `Fat32.DirectoryEnd` | src/rust_fat32.rs:346-441 | on a device that does not fail no scan of a directory ends in an I/O error, also along cyclic chains |
| `Fat32.Fetch` | src/rust_fat32.rs:201-213 | every request of the reader is for a sector inside the device, also on volumes with damaged chains and on devices that fail |
| `Fat32.ReadCluster` | src/rust_fat32.rs:689-713 | the sector loop gives as many bytes of the cluster as are wanted |
| `Fat32.ReadChain` | src/rust_fat32.rs:665-726 | the output is the first bytes along a chain of distinct linked clusters; on a device that does not fail every such chain that is long enough is read |
| `Fat32.FewClusters` | src/rust_fat32.rs:671-673 | the limit of eight clusters never rejects a file of at most 4096 bytes |
| `Fat32.ReadFile` | src/rust_fat32.rs:611-727 | success gives exactly the bytes along the chain of the found entry; for a file whose written record stands in the root directory these are the first size bytes from its cluster on, and on a device that does not fail it is always read if it is at most 4096 bytes, fits and has a good chain; a directory is unsupported and a larger file refused; no I/O error without a failing device |
| `Fat32.EntryAt` | src/rust_fat32.rs:563-609 | gives the entry with a number exactly when the listing has it and its path fits |
| `RamFs.IsValidPath` | src/rust_ramfs.rs:84-116 | accepts exactly the absolute paths of printable segments that are not empty, dot or dot-dot |
| `RamFs.ListsKeys` | src/rust_ramfs.rs:311-356 | the listing has every key of the map exactly once |
| `RamFs.FileSystem.WriteFile` | src/rust_ramfs.rs:202-265 | map update, exactly when path and data are fit and the path is known or fewer than sixteen are stored |
| `RamFs.FileSystem.ReadFile` | src/rust_ramfs.rs:267-309 | map lookup |
| `RamFs.FileSystem.RemoveFile` | src/rust_ramfs.rs:358-389 | map deletion |
| `RamFs.FileSystem.EntryAt` | src/rust_ramfs.rs:311-356 | the path and the length of the data of the requested entry of the listing |
| `PacketCore.ChecksumAdd` | src/rust_net.rs:153-164 | adds the big-endian words, an odd byte as a high byte, without wrap-around for anything a frame can hold |
| `PacketCore.ChecksumFold` | src/rust_net.rs:166-171 | gives the ones'-complement representative: zero only for zero, else from 1 to 65535 in the class modulo 65535 |
| `PacketCore.FoldedOnes` | src/rust_net.rs:166-175 | a folded sum is 0xFFFF exactly for the positive multiples of 65535 |
| `PacketCore.IsChecksumValid` | src/rust_net.rs:173-175 | the two loops verify the checksum of anything a frame can hold |
| `PacketCore.IsTransportValid` | src/rust_net.rs:181-195 | verifies pseudo header and segment together |
| `PacketCore.ComputeTransportValue` | src/rust_net.rs:197-213 | computes the transport checksum, with 0xFFFF for zero |
| `PacketCore.ChecksumRoundTrip` | src/rust_net.rs:173-179 | storing the checksum in a zeroed field at an even offset makes the bytes verify |
| `PacketCore.TransportRoundTrip` | src/rust_net.rs:181-213 | the same for a transport checksum, which is never sent as zero |
| `PacketCore.WordDetected` | src/rust_net.rs:173-175 | a change of one word goes unnoticed exactly between zeros and ones |
| `PacketCore.ZerosForOnes` | src/rust_net.rs:173-175 | four bytes with a valid checksum that stays valid when their first word changes from zeros to ones |
| `PacketCore.AcceptedFrame` | src/rust_net.rs:215-313 | every field of the summary of an accepted frame is the field at its place in the frame, lengths add up, ports and flags are proper |
| `PacketCore.AcceptedExactly` | src/rust_net.rs:215-313 | a frame is accepted exactly when, by frame offset, length, EtherType, version, total length, a fragment word of 0 or 0x4000, time to live, the UDP or TCP header and both ports are proper, the ten header words sum up to a positive multiple of 65535, and so do pseudo header and segment with a checksum that is not zero |
| `PacketCore.BuiltAccepted` | src/rust_net.rs:197-313 | a frame of that shape with both checksums computed into zeroed fields is accepted |
| `PacketCore.RefusedExactly` | src/rust_net.rs:215-313 | when a frame is refused as a fragment, for a checksum or as unsupported; every other refusal is invalid |
| `PacketCore.FrameDetected` | src/rust_net.rs:215-313 | changing any one byte of an accepted frame from the EtherType to the end of the datagram makes it rejected |
| `PacketCore.PacketQueue.Enqueue` | src/rust_net.rs:396-437 | a frame enters, behind the others, exactly when it is acceptable by its offsets and fewer than eight wait; a failed call changes nothing |
| `PacketCore.PacketQueue.Dequeue` | src/rust_net.rs:439-503 | the oldest frame leaves if it fits; a failed call changes nothing; the state error never occurs |
| `Ps2Ring.StepKeeps` | src/ps2.c:110-154 | each atomic step of either side keeps the ring consistent with the log of offered, accepted and delivered items, whatever the other side is doing |
| `Ps2Ring.EveryInterleaving` | src/ps2.c:110-154 | the accepted items are the offered ones without the dropped ones, in order, and only the item under way is undecided; the delivered ones are a prefix of them; at most capacity minus one wait; the drop counter is right |
| `Ps2Ring.DropsOnlyWhenFull` | src/ps2.c:110-119 | an item is dropped only when the ring held capacity minus one items |

## Left out

- Boot, firmware tables, port and memory-mapped I/O, interrupt entry, context switching: the memory map and the events of user programs are inputs.
- The desktop, the consoles, text drawing and the demo applications: user interface.
- Self tests, null checks and struct layout.
- The block, file-system and module wrappers in C, and the finite tables of `src/anonymity.c` and of the TCP state transitions.
- Statistics counters of the process system, and the register contents saved for a process.
- System calls that neither change the caller's turn nor its input (write, pid, clock, capability query, messages, anonymous connect) are one event in `Scheduler.dfy`; their range and capability checks are modelled in `UserSpace.dfy` and `Capability.dfy`, messages between slots in `Loader.dfy`, where the capability handle is already resolved and the bytes sent are an input.
- The contents of a present request in user memory: whether they are proper is part of the event.
- Loading and running meet only in the verdict of the mapping test: `Loader.dfy` has memory and pages, `Scheduler.dfy` states and turns of the same slots.
- Frames above 52-bit addresses: physical memory has at most 2^40 pages.
- The flags that keep the scheduler idle before its self test.
- Payload bytes and headers of the kernel heap are kept apart: a stray write into a header is not modelled.
- A frame is a table or a data page in the memory model; the allocator never hands one out as both.
- Memory orders of the PS/2 rings: every atomic load and store is one step of an interleaving.
- `heap_init` on a heap that is already initialised.
- `paging_init` gives no table back when it fails half way; the model says when it fails, not what is taken then.
- Scheduling.Scheduler.Serve: a program that never gives the processor back ends the run; nothing is said of later rounds.
