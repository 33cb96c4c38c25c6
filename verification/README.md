# Verified model of Nearlands' kernel services

Nearlands is a UEFI boot loader and a kernel, "narnify", with uACPI and nanoprintf in its tree. This
project models the parts of narnify whose purpose is an invariant or a refinement, and proves those
properties with Dafny 4.11. `dafny verify dfyconfig.toml` checks everything.

| component | files | central results |
|---|---|---|
| bit-level field I/O (`io.c`) | `Bits`, `BitCopy`, `BufferField`, `FieldUnit` | `bit_copy` is the copy of a bit sequence; fast and slow paths agree; write then read; partial writes on failure |
| general heap (`alloc.c`) | `HeaderList`, `HeapLayout`, `HeapAllocator` | headers and payloads tile every block; live payloads stay apart; counters and free list exact; freed memory is used again first; growth suffices |
| page tables (`vmm.c`) | `PageWalk`, `PageTables` | map is one update of the translation, with present and writable entries all the way; unmap removes one page, the tables stay a tree; what the boot loops map, exactly |
| locks (`mutex.c`) | `GlobalLock`, `RecursiveLock`, `RwLock` | one owner, no lost wake-up, and a way to the lock from every waiting state; owner and depth exact; no writer beside a reader, but a reader beside a reader |
| general purpose events (`event.c`) | `GpeMasking`, `GpeUsers` | masking wins against handlers in flight and comes to its end; user counts and runtime bits agree through failures |
| formatted printing (`nanoprintf.h`) | `Digits`, `DoubleText`, `DoubleValue`, `SmallDouble`, `Ftoa`, `FormatSpec`, `FormatGrammar`, `Printf`, `Conversions`, `NegativePrecision`, `Vsnprintf` | from the letters of a format and its numbered arguments to the text; what is printed reads back; how near a printed double is; 23 bytes are enough; the parser accepts exactly the grammar; truncation is faithful |
| entity component system (`ecs.c`, `arena.c`) | `Ecs`, `FreeQueue` | a new entity never takes a live slot; components tile their arena, and those of different entities share no byte; live entities survive growth |

Code that changes things in place is modelled with classes, arrays and loops, each proved against a
specification function or predicate; protocols of several threads are step systems over program
counters, with any number of threads. `Machine`, `Arithmetic` and `Options` hold what several
components share.

How the outside is modelled:

- The page allocator, the heap's answers to other components and register accesses are inputs: a page
  address (0 is NULL), a sequence of answers, or which accesses fail. Pages handed out are aligned and
  not in use; a run of pages for the heap holds at least one page and ends below 2^52, the end of
  physical memory (`HeapLayout.Fresh`). Nothing else is assumed about them.
- Kernel mutexes, spinlocks, events and the wait for work in flight behave as their documented
  interface says (`narnify/src/includes/uacpi/kernel_api.h:242-288` and `317-369`).
- A compare-and-swap that fails reloads its expected value. `uacpi_memcpy_zerout` copies the common
  prefix and zeroes the rest.

Where the code does something other than its shape suggests, the model follows the code:

- The block that `MmInitGeneralAllocator` makes has a size that wrapped below its own header; the
  invariant carries it as a block of capacity 0 (`HeapLayout.Capacity`).
- A request within 64 bytes of 2^64 is served with too few bytes: `HeapAllocator.CarvedSizeServes` says
  for which sizes the rounded request is enough. From 2^64 - 63 to 2^64 - 16 a block hands out less
  than a chunk header, and what is left is no heap (`HeapAllocator.OverrunBreaks`); the heap stays
  valid exactly otherwise. From 2^64 - 4096 to 2^64 - 64 the size of a new block wraps around: the
  request fails, and an empty block stays behind (`HeapAllocator.Heap.Allocate`).
- The boot loop over the memory map counts an entry's pages without the offset of its base, and ORs
  flags into addresses it does not round. An entry that starts off a page is mapped to itself only if
  its rounded size has room for the offset (`PageTables.EntryExactly`); from four bytes off on, bits of
  the address become flags of the leaf as well (`PageTables.EntryExactFlags`).
- `npf_ftoa_rev` loses the carry when the 32 bits it rounds are all ones: "%.0f" prints "1" for the
  double just below 2 and "0" for the one just below 1 (`DoubleValue.BelowTwo`, `DoubleValue.BelowOne`;
  `DoubleValue.NearestInteger` says exactly when, for every double below 2^32).
- `MmUnmapPage` reports success for a page that was not mapped as long as its last table exists, and
  the failed `MmMapPage` leaves the tables it has already hung in place.
- Installing a native GPE handler and taking it away again clears a mask that was set on an event in
  use: exactly then, `GpeUsers.GpeRegister.InstallThenUninstall`, with the case spelled out in
  `GpeUsers.MaskIsLost`.
- A literal negative precision such as "%.-5d" is not treated as missing: its digits are still the
  number of zeros to pad to (`NegativePrecision.MinusFive`; `NegativePrecision.NegativePrecisionShows`
  says exactly when that changes the text of a number).
- Every change of an event's own runtime bit also sets `current_mask` to `runtime_mask` for the whole
  register, so a block action on its siblings is undone: `GpeUsers.BlockActionIsUndone` is a case, and
  `GpeUsers.GpeRegister.AddUser`, `RemoveUser`, `InstallHandler` and `UninstallHandler` say exactly when
  the siblings keep their bits (`CurrentAfter`).
- `EcsCreateEntity` overwrites the entity array's pointer before it notices that the array could not
  grow: the entities of that archetype are lost then, and only then (`Ecs.World.CreateEntity`,
  `Ecs.LostOnly`).

## Model

| member | source | states |
|---|---|---|
| BitCopy.BitCopy | narnify/src/extern/uACPI/src/io.c:48-95 | destination bit index+i is source bit index+i, or 0 past the source, for every i below the length; every other bit of the array is as before, so no byte outside the span changes |
| BitCopy.BitSpan.Offset | narnify/src/extern/uACPI/src/io.c:38-46 | a span moves forward by at most its length and returns how far |
| BitCopy.FetchTurn | narnify/src/extern/uACPI/src/io.c:68-81 | one turn gathers the next up to eight source bits across a byte boundary, in order |
| BitCopy.FetchedBits | narnify/src/extern/uACPI/src/io.c:69-77 | bit k of a gathered byte is source bit done+k, 0 from the end of the source on |
| BitCopy.StoreTurn | narnify/src/extern/uACPI/src/io.c:83-93 | one turn stores up to eight bits over one or two bytes and extends the copied prefix by exactly those |
| BitCopy.StoredBits | narnify/src/extern/uACPI/src/io.c:83-90 | after the two masked stores the bits of the turn are the new ones and all other bits are kept, for every shift and count |
| BitCopy.CopiedMore | narnify/src/extern/uACPI/src/io.c:64-94 | a copied prefix and the next turn make a longer copied prefix |
| BufferField.ReadBufferField | narnify/src/extern/uACPI/src/io.c:97-128 | both paths leave the field's bits in order, with zeros up to the byte boundary, and touch nothing behind |
| BufferField.AlignedRead | narnify/src/extern/uACPI/src/io.c:117-125 | copying bytes and cutting the tail is the bit copy of the field |
| BufferField.WriteBufferField | narnify/src/extern/uACPI/src/io.c:130-176 | both paths store the source truncated or zero-extended to the field and keep every neighbouring bit |
| BufferField.AlignedWrite | narnify/src/extern/uACPI/src/io.c:153-173 | copying bytes and repairing the last one is the bit copy into the field |
| BufferField.CopyIsUnique | narnify/src/extern/uACPI/src/io.c:97-176 | a bit copy has one result, so the byte path and the bit path give the same bytes |
| BufferField.WriteAndReadBack | narnify/src/extern/uACPI/src/io.c:113-176 | a buffer field that is written and then read gives the source truncated or zero-extended to the field |
| BufferField.ReadAndWriteBack | narnify/src/extern/uACPI/src/io.c:113-176 | reading a field and writing back what was read leaves every byte of the buffer as it was |
| BufferField.CutMisalignedTail | narnify/src/extern/uACPI/src/io.c:16-26 | the bits of the last byte behind the field become 0 and no others change |
| FieldUnit.ReadMisaligned | narnify/src/extern/uACPI/src/io.c:406-458 | succeeds exactly when every access unit can be read, and then leaves the field's bits, zero-extended or truncated to the caller's buffer |
| FieldUnit.ReadFieldUnit | narnify/src/extern/uACPI/src/io.c:460-511 | the single-access path and the chunked one meet the same specification for every buffer size |
| FieldUnit.AlignedUnitRead | narnify/src/extern/uACPI/src/io.c:488-507 | one access, a copy and a cut give the bits that the chunked read gives |
| FieldUnit.WriteGeneric | narnify/src/extern/uACPI/src/io.c:513-582 | status and number of written field bits are those of going through the units one by one up to the first that fails; bit for bit, the written ones are the source's, the others of their units are kept, 1 or 0 as the update rule says, and all bits of other units are as before |
| FieldUnit.FirstFailure | narnify/src/extern/uACPI/src/io.c:533-579 | success exactly when every unit can be read as its rule needs and written; otherwise all units in front of the failing one are, and that unit gives the error: INVALID_ARGUMENT exactly for an unknown rule on a partly covered unit |
| FieldUnit.WriteMore | narnify/src/extern/uACPI/src/io.c:533-579 | one unit's read-modify-write extends the written prefix and leaves all other units alone |
| FieldUnit.OthersFilled | narnify/src/extern/uACPI/src/io.c:548-567 | after a whole write under WRITE_AS_ONES or WRITE_AS_ZEROES a bit outside the field is 1 or 0 exactly if its access unit starts in front of the field's end and not in front of the first unit, and is kept otherwise |
| FieldUnit.WriteAndReadBack | narnify/src/extern/uACPI/src/io.c:406-582 | a write and a read of the same field succeed exactly when their units allow it; then the source comes back truncated or zero-extended; under PRESERVE every bit outside the field survives, also a write that fails, and under the other two rules those in the field's units become ones or zeroes and the rest survive |
| HeaderList.HeaderList.Add | narnify/src/mm/amd64pc/alloc.c:83-92 | the header joins the end of the list, head, tail and both links being those of the longer list |
| HeaderList.HeaderList.Remove | narnify/src/mm/amd64pc/alloc.c:94-108 | exactly that header leaves, wherever it is, and the rest stays linked in order |
| HeaderList.ChainedRemove | narnify/src/mm/amd64pc/alloc.c:94-108 | unlinking from the middle of a doubly linked list gives the list without that header |
| HeapLayout.ChunksAreSeparate | narnify/src/mm/amd64pc/alloc.c:142-212 | in every valid heap a chunk's header and payload lie inside its block's pages, behind the block header, and apart from every other chunk |
| HeapLayout.TilesApart | narnify/src/mm/amd64pc/alloc.c:142-146 | chunks that tile a range do not overlap |
| HeapLayout.ChunkCarved | narnify/src/mm/amd64pc/alloc.c:194-210 | carving a chunk from a block keeps the whole heap valid |
| HeapLayout.ChunkSplit | narnify/src/mm/amd64pc/alloc.c:160-179 | splitting a free chunk keeps the tiling, the counters and the free set exact |
| HeapLayout.ChunkFlipped | narnify/src/mm/amd64pc/alloc.c:153-159 | taking or freeing a chunk in place changes its block's count by one and nothing else |
| HeapLayout.BlockAdded | narnify/src/mm/amd64pc/alloc.c:110-126 | a new block over a fresh page run keeps the heap valid, also when its size wrapped |
| HeapLayout.BlockDropped | narnify/src/mm/amd64pc/alloc.c:128-139 | dropping a block with no live chunk keeps the heap valid and returns only its run |
| HeapAllocator.Heap.constructor | narnify/src/mm/amd64pc/alloc.c:47-51 | an empty heap is valid |
| HeapAllocator.Heap.CreateBlock | narnify/src/mm/amd64pc/alloc.c:110-126 | for every u64 size a page run becomes a valid block of the capacity its size stands for, or nothing changes |
| HeapAllocator.Heap.Init | narnify/src/mm/amd64pc/alloc.c:215-219 | the first block takes one page, is valid and has capacity 0 |
| HeapAllocator.Heap.GetMemoryFromFreeList | narnify/src/mm/amd64pc/alloc.c:148-184 | for every u64 request the first chunk of the free list that serves it becomes live, whole or its front with a free chunk in the rest, and nothing else changes; NULL exactly when none serves it, and then the heap is as it was |
| HeapAllocator.Heap.AllocateFreshMemory | narnify/src/mm/amd64pc/alloc.c:186-212 | the free list first; only when no free chunk serves the request is it carved from the first block with room; NULL exactly when there is none either, and then nothing changes. The heap stays valid exactly unless a block was carved for less than a header |
| HeapAllocator.Heap.Allocate | narnify/src/mm/amd64pc/alloc.c:221-238 | a request that the heap can meet as it is takes no pages; any other is carved from the one new block, or is NULL: exactly when the page allocator refuses, or from 2^64 - 4096 to 2^64 - 64, where an empty block stays behind. Up to 2^64 - 64 a new live payload of at least that size, all others as they were |
| HeapAllocator.FromFreeServes | narnify/src/mm/amd64pc/alloc.c:148-184 | a request up to 2^64 - 64 that a free chunk met has a 16-byte aligned live payload of at least that size, and all other live chunks are as they were |
| HeapAllocator.FromBlockServes | narnify/src/mm/amd64pc/alloc.c:194-210 | so has one that was carved from a block |
| HeapAllocator.OverrunBreaks | narnify/src/mm/amd64pc/alloc.c:192-207 | a chunk header in less than 48 carved bytes leaves block and chunk headers that no layout and no page runs make a valid heap |
| HeapAllocator.GrownServes | narnify/src/mm/amd64pc/alloc.c:221-233 | a new block has room for the request it was made for exactly unless its size wrapped around |
| HeapAllocator.Heap.Free | narnify/src/mm/amd64pc/alloc.c:244-283 | NULL and double frees are refused; a chunk becomes free, and the last live one of a block gives back exactly the run that was taken, with no free-list node left in it |
| HeapAllocator.Heap.UnlinkChunksOf | narnify/src/mm/amd64pc/alloc.c:265-274 | the walk removes precisely the nodes of that block |
| HeapAllocator.NewBlockHasRoom | narnify/src/mm/amd64pc/alloc.c:221-230 | a block made for n plus a page fits the rounded n and both headers, for every u64 n whose block's size does not wrap |
| HeapAllocator.SplitSafeBounds | narnify/src/mm/amd64pc/alloc.c:20 | a size is rounded up to the next multiple of 16 |
| HeapAllocator.PagesCover | narnify/src/mm/amd64pc/alloc.c:129-131 | the pages of a size hold it, and one page fewer would not |
| HeapAllocator.CarvedSizeServes | narnify/src/mm/amd64pc/alloc.c:192-193 | the wrapped rounded size is enough for the request exactly up to 2^64 - 64 |
| HeapAllocator.SignedRemaining | narnify/src/mm/amd64pc/alloc.c:196-198 | the signed test finds room exactly when the unsigned capacity has it |
| HeapAllocator.CounterBecomesZero | narnify/src/mm/amd64pc/alloc.c:258-260 | the counter that is decremented becomes zero exactly when all other chunks of the block are free |
| HeapAllocator.LastLiveChunk | narnify/src/mm/amd64pc/alloc.c:258-280 | with the counter at zero the block can go with all its chunks: the heap stays valid and loses just the freed chunk |
| PageWalk.SameIndices | narnify/src/includes/mm/vmm.h:19-24 | two addresses take the same four turns exactly when they are on one page |
| PageWalk.FlaggedLeads | narnify/src/mm/amd64pc/vmm.c:58 | what is stored for an address is a present and writable entry for its frame, and has no other flag if it is aligned |
| PageWalk.IndicesOfPage | narnify/src/includes/mm/vmm.h:19-24 | the four indices of an address are the digits of its page number in base 512 |
| PageWalk.TranslateIsLeaf | narnify/src/mm/amd64pc/vmm.c:33-62 | in a tree of tables the processor's walk, which stops at an entry that is not present, ends in the one table whose home is the first three turns |
| PageWalk.Hung | narnify/src/mm/amd64pc/vmm.c:17-30 | hanging an empty table at a missing entry keeps the tree and every translation |
| PageWalk.LeafWritten | narnify/src/mm/amd64pc/vmm.c:61 | a leaf write changes the translation of exactly the addresses of that page and keeps the tree |
| PageWalk.WritableLeaf | narnify/src/mm/amd64pc/vmm.c:17-30 | where the leaf is present and writable, so is every entry on the way to it |
| PageTables.AddressSpace.GetNextLevel | narnify/src/mm/amd64pc/vmm.c:17-30 | a fresh zeroed page becomes a table, or an entry out of range or a refusal changes nothing |
| PageTables.AddressSpace.MapPage | narnify/src/mm/amd64pc/vmm.c:33-63 | on success only the page's translation changes: to a present and writable leaf with the physical page's frame and no other flag but the address's own low bits, and the processor may write through every table on the way; out of memory no translation changes, and three pages are always enough |
| PageTables.AddressSpace.UnmapPage | narnify/src/mm/amd64pc/vmm.c:65-86 | afterwards exactly that page is unmapped; NOT_MAPPED exactly when a table on the way is missing |
| PageTables.AddressSpace.CheckIfPageIsMapped | narnify/src/mm/amd64pc/vmm.c:88-109 | true exactly when the processor's walk finds an entry |
| PageTables.AddressSpace.MapKernel | narnify/src/mm/amd64pc/vmm.c:118-122 | for any addresses and count: the pages mapped so far, and nothing else, are what changed; all of them exactly on success, and three fresh pages for each always suffice |
| PageTables.AddressSpace.MapEntry | narnify/src/mm/amd64pc/vmm.c:123-129 | the same for the loop over any entry of the memory map, aligned or not |
| PageTables.AddressSpace.Init | narnify/src/mm/amd64pc/vmm.c:113-130 | after both loops exactly the pages of the kernel and of the entries are mapped, later ones over earlier ones; with an upper-half kernel and lower-half entries the whole kernel is mapped and every byte of every covered entry to itself, with no other flag where all entries are coverable; three pages of the allocator for each page and one for the root suffice |
| PageTables.EntryStays | narnify/src/mm/amd64pc/vmm.c:123-130 | a byte that a covered entry maps to itself stays so through all later entries, overlapping and uncovered ones included |
| PageTables.KernelStays | narnify/src/mm/amd64pc/vmm.c:118-130 | no lower-half entry changes the translation of a kernel address |
| PageTables.EntryExactly | narnify/src/mm/amd64pc/vmm.c:123-129 | from empty tables every byte of an entry is translated to itself exactly if the entry is empty or its rounded size has room for its bytes behind the offset of its base |
| PageTables.EntryExactFlags | narnify/src/mm/amd64pc/vmm.c:123-129 | and with no flag but present and writable, exactly if the base is less than four bytes off a page besides |
| PageTables.AlignedIsCoverable | narnify/src/mm/amd64pc/vmm.c:123-129 | every page-aligned entry is covered, with no other flags |
| PageTables.RangeAt | narnify/src/mm/amd64pc/vmm.c:118-129 | the i-th page of a loop over at most 2^36 pages translates to the i-th physical page by a present and writable leaf, whatever was mapped before |
| GlobalLock.WordBits | narnify/src/extern/uACPI/src/mutex.c:27-49 | acquiring sets owned, and pending exactly if it was owned; releasing clears both; the reserved bits stay |
| GlobalLock.ThreadKeeps | narnify/src/extern/uACPI/src/mutex.c:20-116 | every atomic step of a thread keeps the protocol's invariant |
| GlobalLock.FirmwareKeeps | narnify/src/extern/uACPI/src/mutex.c:20-53 | every step of the firmware keeps it |
| GlobalLock.HandlerKeeps | narnify/src/extern/uACPI/src/event.c:2091-2116 | every step of the release interrupt handler keeps it |
| GlobalLock.RunKeepsInv | narnify/src/extern/uACPI/src/mutex.c:20-116 | the invariant holds in every state of every run, and the reserved bits never change |
| GlobalLock.OneOwner | narnify/src/extern/uACPI/src/mutex.c:20-53 | at most one thread or the firmware owns the word, the word says so, and an unowned word is never pending |
| GlobalLock.NoLostWakeup | narnify/src/extern/uACPI/src/mutex.c:64-93 | while a thread waits, the firmware owns with pending set, or a release is outstanding, or the event counter is positive |
| GlobalLock.NoLostNotification | narnify/src/extern/uACPI/src/mutex.c:105-116 | while the firmware waits, the owner has pending to see, or is about to notify, or has notified |
| GlobalLock.WaiterCanBeWoken | narnify/src/extern/uACPI/src/mutex.c:86-89 | from every reachable state, steps of the firmware and the handler alone lead a waiting thread to its event |
| GlobalLock.WaiterCanOwn | narnify/src/extern/uACPI/src/mutex.c:55-93 | from every reachable state in which a thread waits, some path ends with that thread owning the lock |
| GlobalLock.OutsiderCanOwn | narnify/src/extern/uACPI/src/mutex.c:55-93 | so does some path for any thread while nobody is inside the native mutex |
| GlobalLock.OwnerReleases | narnify/src/extern/uACPI/src/mutex.c:105-116 | an owner can always give the word back, neither owned nor pending, and writes GBL_RLS exactly if it was pending |
| GlobalLock.AttemptsBounded | narnify/src/extern/uACPI/src/mutex.c:66-79 | the 16-bit attempt counter never wraps, and is 0xFFFF wherever a thread gives up |
| GlobalLock.AttemptsCounted | narnify/src/extern/uACPI/src/mutex.c:66-89 | in every run the counter is the number of times the thread has read the word anew, and between two attempts it has waited for the event once |
| GlobalLock.GaveUp | narnify/src/extern/uACPI/src/mutex.c:75-85 | a thread that gives up has made exactly 0xFFFF attempts and has waited 0xFFFE times |
| GlobalLock.ContentionWaits | narnify/src/extern/uACPI/src/mutex.c:75-89 | swapping over an owned word before that leads through the pending flag to the wait |
| RecursiveLock.RunKeepsInv | narnify/src/extern/uACPI/src/mutex.c:201-314 | at every program counter of every thread, owner, depth and native mutex are what that point needs |
| RecursiveLock.OneHolder | narnify/src/extern/uACPI/src/mutex.c:201-314 | who holds the lock or is its owner has the native mutex, so there is one holder |
| RecursiveLock.UnlockedRead | narnify/src/extern/uACPI/src/mutex.c:207-218 | the read of the owner without the mutex lets exactly the holder past it |
| RecursiveLock.DepthCounts | narnify/src/extern/uACPI/src/mutex.c:287-314 | between calls the depth is the holder's acquires minus its releases, at most 0xFFFF for AML mutexes |
| RecursiveLock.Quiescent | narnify/src/extern/uACPI/src/mutex.c:225-253 | when nobody holds it and no call is under way, also after refused ones, owner and native mutex are free |
| RecursiveLock.HolderCanAcquire | narnify/src/extern/uACPI/src/mutex.c:201-253 | a holder can always acquire again, one level deeper and nothing else changed; of an AML mutex below 0xFFFF levels |
| RecursiveLock.RefusedAtLimit | narnify/src/extern/uACPI/src/mutex.c:207-218 | a holder is refused exactly at 0xFFFF levels of an AML mutex, and goes one deeper otherwise |
| RecursiveLock.OtherCanAcquire | narnify/src/extern/uACPI/src/mutex.c:220-253 | with the native mutex free any thread can become the holder at depth 1 |
| RecursiveLock.HolderCanRelease | narnify/src/extern/uACPI/src/mutex.c:287-314 | a holder can always release: one level less, and from the last one owner and mutex free |
| RwLock.MoveKeeps | narnify/src/extern/uACPI/src/mutex.c:353-394 | every step keeps the count and the ownership of both mutexes, failing acquires included |
| RwLock.WriterIsAlone | narnify/src/extern/uACPI/src/mutex.c:353-394 | a writer is never inside together with a reader or another writer |
| RwLock.CountSaysWhoHolds | narnify/src/extern/uACPI/src/mutex.c:361-365 | outside the read_mutex section the count is positive exactly when the readers hold write_mutex |
| RwLock.CountIsReaders | narnify/src/extern/uACPI/src/mutex.c:361-380 | num_readers is the number of sessions that read or are about to start or stop |
| RwLock.NothingLeaks | narnify/src/extern/uACPI/src/mutex.c:353-394 | when all sessions are over, failed ones included, the lock is as it was made |
| RwLock.ReaderCanEnter | narnify/src/extern/uACPI/src/mutex.c:353-371 | unless somebody writes or is in the section, a reader can come in, beside any others |
| RwLock.ReaderCanLeave | narnify/src/extern/uACPI/src/mutex.c:373-384 | a reader can leave outside the section, and the last one frees write_mutex |
| RwLock.WriterCanEnterAndLeave | narnify/src/extern/uACPI/src/mutex.c:386-394 | a writer can come in while write_mutex is free, and leaves the lock as it was |
| GpeMasking.CallKeeps | narnify/src/extern/uACPI/src/event.c:335-376 | a step of set_gpe_state by anyone, failing accesses included, keeps what is known of the enable register |
| GpeMasking.CallerKeeps | narnify/src/extern/uACPI/src/event.c:1259-1307 | a step of mask, unmask, block actions or user changes keeps it |
| GpeMasking.MaskedStaysDisabled | narnify/src/extern/uACPI/src/event.c:1259-1307 | once the disable step of masking is over, the hardware enable bit is 0 until the event is unmasked, in every interleaving |
| GpeMasking.OneAtTheRegister | narnify/src/extern/uACPI/src/event.c:351-375 | the enable register is read, changed and written back by one agent at a time |
| GpeMasking.CanQuiesce | narnify/src/extern/uACPI/src/event.c:351-375 | while the caller is between two steps, all that is in flight can finish and leave, the spinlock free and the registers untouched |
| GpeMasking.MaskingCompletes | narnify/src/extern/uACPI/src/event.c:1259-1307 | from every reachable state some path masks the event to the end: the masked bit set, the enable bit 0 and settled, no other bit changed |
| GpeMasking.UnmaskingCompletes | narnify/src/extern/uACPI/src/event.c:1259-1307 | some path takes a mask off, and turns the event on exactly if it is current |
| GpeMasking.EnablingCompletes | narnify/src/extern/uACPI/src/event.c:335-376 | and some path turns an unmasked event on, and changes no other bit |
| GpeUsers.GpeRegister.SetGpeState | narnify/src/extern/uACPI/src/event.c:335-376 | only the event's enable bit changes, only when not gated, and not at all on a failed access |
| GpeUsers.GpeRegister.AddUser | narnify/src/extern/uACPI/src/event.c:1215-1238 | one user more, or after a failed enable exactly the users and runtime bits of before; the siblings' users, runtime, mask and enable bits are untouched, and their current bits exactly unless the first user came while they differed from the runtime bits |
| GpeUsers.GpeRegister.RemoveUser | narnify/src/extern/uACPI/src/event.c:1190-1208 | one user fewer, or after a failed disable exactly the users and runtime bits of before; the siblings likewise, their current bits exactly unless the last user went while they differed from the runtime bits |
| GpeUsers.GpeRegister.ApplyAction | narnify/src/extern/uACPI/src/event.c:700-738 | disabling clears the register's current mask, enabling sets it to the runtime bits that are not masked; the enable register follows if it can be written |
| GpeUsers.GpeRegister.MaskUnmask | narnify/src/extern/uACPI/src/event.c:1259-1307 | the mask bit changes or INVALID_ARGUMENT and nothing does; no sibling's enable bit changes |
| GpeUsers.GpeRegister.InstallHandler | narnify/src/extern/uACPI/src/event.c:1407-1475 | the native handler replaces the old one and remembers it; the mask bit is lost exactly when the event was in use; the siblings' current bits are as for RemoveUser, and without faults the event's enable bit is given |
| GpeUsers.GpeRegister.UninstallHandler | narnify/src/extern/uACPI/src/event.c:1503-1557 | handler, type and triggering of before come back, and the user that was taken away; the siblings' current bits are as for AddUser, and without faults the event's enable bit is given; the event is held back and its status bit cleared exactly if it is edge-triggered, in use and pending |
| GpeUsers.GpeRegister.MaybeDispatch | narnify/src/extern/uACPI/src/event.c:491-625 | a pending event that is polled is disabled, held back and, if edge-triggered, cleared; one that is not pending is left alone; a failing access releases nothing that was held back and touches no other bit |
| GpeUsers.GpeRegister.InstallThenUninstall | narnify/src/extern/uACPI/src/event.c:1407-1557 | with no failing access, handler, type, triggering, user count and runtime bit are as before; the masks are exactly unless the event was masked and in use, and the siblings' current bits exactly unless its last user came and went over a block action; the hardware enable bit, the status register and whether the event is held back are given |
| GpeUsers.MaskIsLost | narnify/src/extern/uACPI/src/event.c:1315-1323 | a concrete event whose mask does not survive an install and an uninstall |
| GpeUsers.BlockActionIsUndone | narnify/src/extern/uACPI/src/event.c:700-738 | a concrete sibling that a block action had disabled and that is enabled again |
| Digits.ToDigitsDecode | narnify/src/includes/nanoprintf/nanoprintf.h:500-510 | the digits of a number decode to it, are as many as it has, and are those of the table of the asked case |
| Digits.ToDigitsFit | narnify/src/includes/nanoprintf/nanoprintf.h:500-510 | a 64-bit number has at most 22 digits in base 8, 10 and 16 |
| Digits.UtoaRev | narnify/src/includes/nanoprintf/nanoprintf.h:500-510 | the loop stores exactly the digits, back to front, in at most 22 bytes, and nothing behind them |
| Digits.DigitCountIsUnique | narnify/src/includes/nanoprintf/nanoprintf.h:500-510 | a number has one digit count |
| Ftoa.FtoaRev | narnify/src/includes/nanoprintf/nanoprintf.h:570-719 | for every double, precision and case the buffer holds exactly the text of the printed number, or of the right word, and all stores stay in 23 bytes; a number is printed exactly when it is finite, the precision is at most 21, and point and all digits have room |
| DoubleText.TextShape | narnify/src/includes/nanoprintf/nanoprintf.h:595-711 | the text is decimal digits with a point at the precision, with no leading zero; digits in front of and behind the point decode to the printed number |
| DoubleValue.WholeIsPrinted | narnify/src/includes/nanoprintf/nanoprintf.h:595-711 | zero and integers below 2^32 are printed exactly, and exactly when their digits, the precision and the point fit in 23 bytes |
| DoubleValue.NearestDigits | narnify/src/includes/nanoprintf/nanoprintf.h:653-711 | from 1/2 to 2^32 and with a precision, the printed number is within half a unit of its last digit plus two and a half 2^-28 of its first digit behind the point |
| DoubleValue.NearestInteger | narnify/src/includes/nanoprintf/nanoprintf.h:653-711 | without one, below 2^32, it is the nearest integer, to half a unit and 2^-33, exactly unless the double is 1/2 or more and the first 33 bits of its fraction are all ones; below 1 it is 1 exactly from 1/2 to there, and 0 otherwise |
| DoubleValue.BelowTwo | narnify/src/includes/nanoprintf/nanoprintf.h:684-711 | the double just below 2 is printed as "1" by "%.0f" |
| DoubleValue.BelowOne | narnify/src/includes/nanoprintf/nanoprintf.h:684-711 | the double just below 1 is printed as "0" by "%.0f" |
| SmallDouble.NearestBelowHalf | narnify/src/includes/nanoprintf/nanoprintf.h:653-711 | a normal double below 1/2, e turns of the scaling below exponent -1, is printed as in NearestDigits, but from a value within e + 1 relative steps of 2^-29 of it |
| SmallDouble.BroughtUpNear | narnify/src/includes/nanoprintf/nanoprintf.h:667-682 | every turn of the scaling below exponent 0 costs at most one such step and keeps the mantissa between 2^28 and 2^32 |
| SmallDouble.TinyIsZero | narnify/src/includes/nanoprintf/nanoprintf.h:667-711 | a double whose exponent is below -1 - 4 * precision, which every subnormal one is up to 255 digits, is printed as zeros, and is at most half a unit of its last digit |
| DoubleValue.LargeIsNear | narnify/src/includes/nanoprintf/nanoprintf.h:603-630 | from 2^32 on the printed integer is within z + 2 relative steps of 2^-29 of the double, z being its zeros at the end |
| DoubleValue.ScaledIsNear | narnify/src/includes/nanoprintf/nanoprintf.h:617-630 | every decimal zero that scaling stores costs at most one such step |
| DoubleValue.ScaledByHalves | narnify/src/includes/nanoprintf/nanoprintf.h:617-630 | with the carry for half a unit, scaling doubles a value below 2^31 exactly and divides a larger one by five, rounded down to whole halves |
| DoubleValue.LastDigitNearest | narnify/src/includes/nanoprintf/nanoprintf.h:689-711 | the digits that were asked for are those of man * 10^(n-1) / 2^28 rounded to the nearest, a tie up |
| Ftoa.ScaleInteger | narnify/src/includes/nanoprintf/nanoprintf.h:618-630 | scaling keeps 32 bits, stores only zeros, and fails exactly when these have no room |
| Ftoa.ScaleFraction | narnify/src/includes/nanoprintf/nanoprintf.h:667-682 | after scaling the mantissa and carry are below 10 * 2^28 whenever digits are still wanted |
| Ftoa.PrintFraction | narnify/src/includes/nanoprintf/nanoprintf.h:689-698 | every fraction digit is decimal, and together they are man * 10^(n-1) / 2^28 rounded down |
| Ftoa.Round | narnify/src/includes/nanoprintf/nanoprintf.h:704-711 | the loop leaves the incremented text, and fails exactly when a carry meets nothing but nines in a full buffer |
| Ftoa.NinesGrow | narnify/src/includes/nanoprintf/nanoprintf.h:704-711 | the incremented text is one character longer exactly when there are only nines |
| Ftoa.RoundedText | narnify/src/includes/nanoprintf/nanoprintf.h:684-711 | the text before rounding, rounded from the place of the carry, is the text of the printed number |
| Ftoa.IncrementAddsOne | narnify/src/includes/nanoprintf/nanoprintf.h:704-711 | the incremented text stands for one unit more, whatever carries there are |
| Ftoa.IncrementShape | narnify/src/includes/nanoprintf/nanoprintf.h:704-711 | digits stay digits and the point stays where it is |
| DoubleText.MantissaFits | narnify/src/includes/nanoprintf/nanoprintf.h:604-609 | the integer part's leading bits fit in 32 bits |
| FormatSpec.ParseFormatSpec | narnify/src/includes/nanoprintf/nanoprintf.h:337-498 | length and reading are those of the parsing function, inside the format |
| FormatGrammar.ParsedIsGrammatical | narnify/src/includes/nanoprintf/nanoprintf.h:337-498 | whatever parses is '%', flags, width, precision, length modifier and conversion character in that order, and is read as what these parts mean |
| FormatGrammar.GrammaticalParses | narnify/src/includes/nanoprintf/nanoprintf.h:337-498 | every such text parses, wherever it stands, and no further than its end |
| FormatGrammar.ParseRendered | narnify/src/includes/nanoprintf/nanoprintf.h:337-498 | every expressible specification is read back from its text, wherever it stands |
| FormatGrammar.LetterTable | narnify/src/includes/nanoprintf/nanoprintf.h:413-495 | each conversion letter stands for one conversion and one case, as a table has them |
| FormatSpec.ParseAdvances | narnify/src/includes/nanoprintf/nanoprintf.h:337-498 | a specification is at least two characters long and ends inside the format |
| Printf.AssembledLength | narnify/src/includes/nanoprintf/nanoprintf.h:1050-1122 | a padded conversion is as long as its width and its parts ask for |
| Printf.NormalForm | narnify/src/includes/nanoprintf/nanoprintf.h:1050-1122 | every padded text is spaces, sign, prefix, zeros, digits and spaces: behind only under '-', and then no other padding; in front none where zeros pad |
| Printf.SignedLength | narnify/src/includes/nanoprintf/nanoprintf.h:898-932 | a signed conversion has max(width, sign + max(precision, digits)) characters |
| Printf.UnsignedLength | narnify/src/includes/nanoprintf/nanoprintf.h:934-1000 | an unsigned one has max(width, prefix + max(precision, digits)), with the octal special case |
| Printf.StringBodyIsPrefix | narnify/src/includes/nanoprintf/nanoprintf.h:888-896 | a string conversion shows the longest prefix without a NUL that its precision allows |
| Printf.SignedReadsBack | narnify/src/includes/nanoprintf/nanoprintf.h:898-1121 | whatever the flags, the text of a signed number reads back as that number |
| Printf.UnsignedReadsBack | narnify/src/includes/nanoprintf/nanoprintf.h:934-1121 | so does that of an unsigned one in its base, with and without "0x" |
| Printf.SignedConversion | narnify/src/includes/nanoprintf/nanoprintf.h:789-1121 | from the format string on: the text of %d reads back as the argument cut to its modifier, and has max(width, sign + max(precision, digits)) characters, the precision being what the parser made of it |
| Printf.UnsignedConversion | narnify/src/includes/nanoprintf/nanoprintf.h:789-1121 | the same for %u, %x and %o |
| NegativePrecision.NegativePrecisionShows | narnify/src/includes/nanoprintf/nanoprintf.h:381-399 | a number's text with a literal negative precision is the text without one, as C11 has it for a negative argument, exactly if the value is at most the digit count or zeros pad the field as far |
| NegativePrecision.MinusFive | narnify/src/includes/nanoprintf/nanoprintf.h:381-399 | "%.-5d" prints 7 as "00007" |
| Conversions.ExpandsToPieces | narnify/src/includes/nanoprintf/nanoprintf.h:789-1126 | the text is that of the format's pieces in order: characters of their own, and conversions that each read from the arguments behind those taken before |
| Conversions.FirstArgument | narnify/src/includes/nanoprintf/nanoprintf.h:784-1031 | the number of a conversion's first argument is how many stars and value-taking conversions are in front of it |
| Conversions.ConvertTakes | narnify/src/includes/nanoprintf/nanoprintf.h:784-1031 | a conversion leaves the argument list without one element for each star and one for its value |
| Conversions.TwoNumbers | narnify/src/includes/nanoprintf/nanoprintf.h:789-1126 | two "%d" with any text in front, between and behind print that text and two numbers that read back as the first two arguments |
| Conversions.StarsRead | narnify/src/includes/nanoprintf/nanoprintf.h:802-866 | the width is the first starred argument, a negative one its size and '-'; the precision is the next, a negative one as if there were none; then the defaults |
| Conversions.Cut | narnify/src/includes/nanoprintf/nanoprintf.h:898-960 | an integer is cut to the 8, 16, 32 or 64 bits of its modifier, signed or unsigned |
| Conversions.NumeralOf | narnify/src/includes/nanoprintf/nanoprintf.h:500-510 | the digits of a number are those of the asked case, as many as it has, none for a zero to the precision 0, and one more zero for '#' with 'o' |
| Conversions.SignedShown | narnify/src/includes/nanoprintf/nanoprintf.h:898-1121 | from the letters 'd' and 'i' to spaces, sign, zeros and exactly as many digits as the number has: the argument by its number, cut to its modifier, with '-' padding behind |
| Conversions.UnsignedShown | narnify/src/includes/nanoprintf/nanoprintf.h:934-1121 | the same from 'u', 'o', 'x', 'X' and 'p', in their base and case and with their prefix, 'p' as 64 bits |
| Conversions.CharacterShown | narnify/src/includes/nanoprintf/nanoprintf.h:875-886 | 'c' shows the character of its argument, '%' itself, a NUL nothing |
| Conversions.StringShown | narnify/src/includes/nanoprintf/nanoprintf.h:888-896 | 's' shows the longest prefix of its argument without a NUL that the precision allows, in order |
| Conversions.DoubleShown | narnify/src/includes/nanoprintf/nanoprintf.h:1023-1121 | the letters of doubles show '-' exactly for the sign bit, and the digits of the printed number, or INF, NAN or ERR in the letter's case without zeros, exactly as the double is |
| Printf.FloatConversion | narnify/src/includes/nanoprintf/nanoprintf.h:789-1121 | the text of %f and its kin is spaces, a sign, zeros, the text of the double and spaces, at most 23 characters of it from the double; a word gets no zeros |
| Vsnprintf.Sink.PutC | narnify/src/includes/nanoprintf/nanoprintf.h:762-779 | every character is counted and those that fit are stored in order |
| Vsnprintf.Emit | narnify/src/includes/nanoprintf/nanoprintf.h:1050-1122 | what is written for a payload is its padded text |
| Vsnprintf.ConvertSigned | narnify/src/includes/nanoprintf/nanoprintf.h:898-932 | the digits of the magnitude, taken in unsigned arithmetic, in at most 23 bytes |
| Vsnprintf.ConvertUnsigned | narnify/src/includes/nanoprintf/nanoprintf.h:934-1000 | the digits with the leading octal zero in at most 23 bytes, the prefix and the precision |
| Vsnprintf.PutDouble | narnify/src/includes/nanoprintf/nanoprintf.h:1023-1047 | a double is written as its sign and the text that npf_ftoa_rev stores, and a word without leading zeros |
| Vsnprintf.FormatOne | narnify/src/includes/nanoprintf/nanoprintf.h:800-1121 | one specification, floats included, writes its text and leaves the arguments behind those that it takes |
| Vsnprintf.VpPrintf | narnify/src/includes/nanoprintf/nanoprintf.h:789-1126 | the loop writes the text that the format and the arguments stand for |
| Vsnprintf.Vsnprintf | narnify/src/includes/nanoprintf/nanoprintf.h:1154-1175 | the result is the length of the whole text whatever the buffer; the buffer holds its prefix of min(n, size - 1) characters and a NUL, and nothing behind is touched |
| Ecs.HandleRoundTrip | narnify/src/ecs/ecs.c:66-73 | a handle decodes to the two 32-bit indices it was made of |
| Ecs.ComponentsApart | narnify/src/ecs/ecs.c:155-167 | components of an entity do not overlap and stay in its arena |
| Ecs.TakenOk | narnify/src/ecs/ecs.c:144-154 | the slot a new entity takes was dead or new, leaves the free list, and no other slot changes |
| Ecs.DiedOk | narnify/src/ecs/ecs.c:215-239 | a dying entity's slot joins the free list once and no other slot changes |
| Ecs.GrownOk | narnify/src/ecs/ecs.c:124-143 | a grown array has room and keeps every slot in use |
| Ecs.World.CreateNewComponent | narnify/src/ecs/ecs.c:29-42 | a new index with its size; earlier sizes stay |
| Ecs.World.GetArcheType | narnify/src/ecs/ecs.c:76-119 | the archetype with exactly this component list, new only if there was none; lists stay pairwise distinct |
| Ecs.World.PushComponents | narnify/src/ecs/ecs.c:155-167 | once there is an arena no push fails and the components tile it exactly |
| Ecs.World.CreateEntity | narnify/src/ecs/ecs.c:121-171 | the slot that was freed first, or else the next index, holds the new entity, its arena the memory that it was given and its components there one behind the other, and no other slot or archetype changes; success or OUT_OF_MEMORY with every live entity unchanged and nobody else born, whenever the array of the archetype has room or can grow; a full one that cannot loses exactly its own entities; live arenas stay apart if the new one is fresh |
| Ecs.World.EntitiesApart | narnify/src/ecs/ecs.c:155-167 | components of two live entities share no byte, as long as every arena was fresh memory |
| Ecs.LostOnly | narnify/src/ecs/ecs.c:137-139 | that loss takes the entities of that archetype and no others, and is one exactly if it had live ones |
| Ecs.FullArrayLost | narnify/src/ecs/ecs.c:122-139 | fifteen live entities in a full array, all of them gone |
| Ecs.World.GetEntity | narnify/src/ecs/ecs.c:173-189 | INVALID_HANDLE out of range, INVALID_ENTITY for a dead slot, success exactly for a live one |
| Ecs.World.DeleteEntity | narnify/src/ecs/ecs.c:210-240 | exactly that entity dies and its slot goes to the end of the free list; live arenas stay apart |
| Ecs.World.GetComponent | narnify/src/ecs/ecs.c:243-254 | the address of the first component of that type in the entity's arena, or NOT_FOUND exactly if it has none |
| FreeQueue.Queue.Append | narnify/src/ecs/ecs.c:225-238 | a slot joins the end of the linked list, also when the last-node pointer dangles |
| FreeQueue.Queue.TakeFirst | narnify/src/ecs/ecs.c:145-150 | the slot that was freed first comes out |
| Ecs.TakeIndex | narnify/src/ecs/ecs.c:144-154 | the node code chooses the slot that the world takes and leaves its free list |
| Ecs.QueueIndex | narnify/src/ecs/ecs.c:221-238 | the node code leaves the free list that the world has after a death |

## Left out

- FieldUnit.ReadFieldUnit: field kinds BANK and INDEX, the global-lock rule and the special address spaces of `handle_special_field` are not modelled; a region is an array of bytes with sets of offsets whose accesses fail.
- FieldUnit.WriteGeneric: offsets are unbounded rather than 32-bit, so a field at the end of a 4 GiB region does not wrap around.
- BitCopy.BitCopy: source and destination lie in different arrays or in disjoint byte ranges, as the source assumes.
- HeapAllocator.Heap.Allocate: what the bytes of other headers become when a chunk header is written over less than 48 carved bytes is not modelled; that the heap is broken then is OverrunBreaks.
- HeapAllocator.Heap.Free: the address is that of a payload; what a wild pointer's header would say is not modelled. Chunk and block headers are records by address rather than bytes of the pages.
- HeaderList.HeaderList.Add: the links live in a map by header address rather than in the headers themselves.
- The heap's spinlock: every allocator call runs alone.
- PageTables.AddressSpace.Init: a refusal of the very first page is excluded, because the source writes through the null pointer. The frame buffer, LAPIC and page-map loops behind the first two are not modelled, and on a second call only a fresh set of pages is considered.
- PageTables.AddressSpace.MapEntry: addresses are unbounded numbers, so an entry that runs past 2^64 goes on instead of wrapping around.
- PageTables.AddressSpace.MapPage: the `flags` argument is ignored, as in the source; TLB invalidation is not modelled. Physical addresses are unbounded numbers whose two low bits the leaf overwrites.
- GlobalLock: a failing write of GBL_RLS, `has_global_lock` false, the sequence numbers of `uacpi_acquire_global_lock` and its timeout on the native mutex are left out; whoever reaches the protocol has the native mutex.
- RecursiveLock: the namespace lock that `uacpi_acquire_aml_mutex` drops and takes again around the wait; the native depth counter of recursive locks is unbounded.
- RwLock: initialisation and teardown of the locks.
- Fairness: of waiting threads, sessions and agents it is proved that a way to the lock or to the end of the call exists from every reachable state, not that a scheduler takes it.
- GpeMasking: wake enables, the teardown of blocks and interrupt contexts, and reads of the status registers.
- GpeUsers.GpeRegister.UninstallHandler: polling an edge event runs the dispatch for handlers that are scheduled; native callbacks, wake setup, GPE lookup by device and index, and the notify lists' contents are outside.
- Ftoa.FtoaRev: scientific, shortest and hexadecimal forms are printed like %f by the source.
- Printf.SignedConversion: overflow of a width, a precision or the character count beyond a C int is undefined in C and unbounded here; a missing argument or one of another type reads as 0.
- Vsnprintf.Vsnprintf: binary and write-back conversions and the `ll`, `j`, `z` and `t` modifiers are not configured in the kernel. A long double is read as the double it is converted to.
- Ecs.World.CreateEntity: fewer than 2^32 archetypes and entities per archetype, at most ten registered components whose sizes add up below 2^64, as the source's arrays and index types need. Handles carry no generation, so an old handle may name the next entity in its slot.
- Ecs.World.DeleteEntity: what the heap answers to the arena's release is an input; the free list is a sequence in the world, and TakeIndex and QueueIndex say that the linked nodes give the same.
- EcsAddComponentDataToEntity copies bytes into a component; memory contents are not modelled.
