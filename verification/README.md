# AvocadOS in Dafny

A model of the stateful core of the AvocadOS kernel, and proofs of what that core is for.
Code that updates fields, links, tables or buffers step by step is imperative here too: classes with
those fields, arrays, and methods with loops. Each such method is proved against a function or a
predicate on values, and the laws of whole runs are lemmas about those.

| files | component |
|---|---|
| `FatVolume`, `Fat16`, `Fat16Directory`, `Fat16Sharing`, `DiskStream` | the FAT16 read path over the sector stream |
| `Paging`, `AddressSpaces`, `ProcessMemory` | two-level page directories, each held as the words the processor walks and as kernel pointers |
| `BlockTable`, `BlockScan`, `BlockHeap`, `HeapHistory` | the kernel heap: a tagged block table and a circular next-fit search |
| `Scheduler`, `Rings` | the task ring and the round-robin scheduler |
| `NodeList`, `Rings` | circular doubly linked lists |
| `PathParser` | absolute paths |

How the source's environment appears:

- The disk is an immutable byte sequence, and `disk_read_block` a lookup of one sector. An unknown disk is an error result.
- CR3, CR4.PSE and `tss.esp0` are fields; the processor's walk is the function `HardwareWalk`, after the Intel SDM Vol. 3A, section 4.3 (32-Bit Paging).
- `kzalloc` of a page takes the next of a list of unused frames that the kernel's window shows. `Machine.free` is that list.
- A page word is a frame number and 12 flag bits, the bit-fields of `struct page_table_entry`; `Paging.OrIsEntry` connects that with `address | flags` on 32-bit words.
- The FAT layout is that of Microsoft's "FAT: General Overview of On-Disk Format", sections "FAT Data Structure" and "FAT Directory Structure".
- File positions, `size * nmemb`, sector arithmetic and `n_switches` wrap as the source's integers do.

Where the code does less than its purpose suggests, the model keeps the code and says exactly when it works:

- `find_first_block` uses its cursor as its stopping point and moves it. With the cursor on the last block it starts past the table; one allocation of all blocks but the first leaves it there (`HeapHistory.FillsTable`). It can join the last free blocks of the table with the first ones into a run that does not exist (`BlockScan.WrappedRun`), and it can run for ever (`BlockScan.EndlessSearch`). `BlockScan.SearchIsSafe` gives the condition, in terms of the table and the cursor before the call, under which it stays in the table and ends with a usable answer, and shows that there is no other.
- `heap_free` reads past the table exactly when the region it frees ends with the table (`BlockHeap.FreeLeavesTable`; `BlockHeap.FreeOfLastBlock` is an example).
- Whole runs of calls are safe from the empty table while they ask in all for fewer blocks than lie after the cursor (`HeapHistory.FreshRunIsSafe`), and without bound while the last block is held and the cursor is before it (`HeapHistory.HeldRunIsSafe`). Calls alone never bring about such a held block (`HeapHistory.NeverBecomesHeld`): it would have to be set up from outside, which the source does not do.
- A lookup in a directory without a first cluster takes 32 bytes of whatever lies at its first sector for an entry, because it reads before it adjusts the cursor. The first sector of such an item is sector 0, so these are the first bytes of the volume header. A subdirectory entry that has lost its first cluster leads there. `Fat16Directory.LookupIsInContent` says when the result is right all the same; `Fat16Directory.PhantomEntry` gives headers for which it is not, and `Fat16Directory.PhantomLookup` performs the lookup on a volume with such a header.
- `swap` in `list.c` exchanges two nodes of one ring unless the second is immediately before the first, and nodes of two rings unless one of them is alone in its ring; these are the only exceptions, and in each of them the exchanged sequences are not the rings that result (`NodeList.Swap`). In a ring of two nodes `swap` of the first and the second always fails (`NodeList.SwapInRingOfTwo`).
- `paging_map_page` accepts mapping a page of the kernel's own window elsewhere, after which the kernel's physical addresses are wrong; `Paging.Machine.MapPage` says exactly when the window stays right.
- Removing the running task from the ring leaves `current_task` outside it (`Scheduler.Cpu.Remove`: the processor state stays in order if and only if another task was removed).
- Printing and parsing a path is the identity exactly for proper parts of at most 250 characters in all (`PathParser.PrintThenParse`).

Reading order: `Rings`, then any component; within a component, the files in the order of the table.

## Model

| member | source | states |
|---|---|---|
| Fat16.Descriptor.Read | src/fs/fat16.c:576-602 | for every file whose chain has an end, from any position: the count is the least of size * nmemb (wrapped to 32 bits), of size_bytes - pos and of what is left of the chain, and 0 past either end; byte by byte, what is given is the content from pos on, put at the caller's place, and no other byte of the buffer changes; the position advances by as many; `eof` is set exactly at the end of the file or of its chain, and otherwise the cursor is where the chain says |
| Fat16.Descriptor.ReadSlice | src/fs/fat16.c:576-602 | the same against the functions by which whole runs are specified |
| Fat16.ReadCount | src/fs/fat16.c:594 | that count, with the 32-bit product written out |
| Fat16.ReadLeaves | src/fs/fat16.c:594-601 | that cursor, field by field |
| Fat16.ContentAt | src/fs/fat16.c:58-70 | byte p of a file's content is the disk's byte at ((data sector + (cluster - 2) * sectors per cluster) * bytes per sector + offset), the cluster being chain element p / bytes_per_cluster |
| Fat16.Descriptor.ReadBytes | src/fs/fat16.c:423-448 | reading across any number of clusters is reading a slice of the flat content, cut only at the chain's end, and the cursor ends where the chain says for the new position; an item without a chain gives one chunk of the disk from its current sector and is then ended |
| Fat16.Descriptor.ReadChunk | src/fs/fat16.c:428-444 | one iteration: a chunk inside one cluster is delivered and the cursor moves from in place to in place, end of chain included; without a chain the chunk is delivered and `eof` set |
| Fat16.ReadOn | src/fs/fat16.c:428-444 | chunk by chunk the rest shrinks by what was given, and the loop ends by its length, by the end of the chain, or after one chunk without a chain |
| Fat16.ReadStep | src/fs/fat16.c:430 | what is left of the current cluster is not empty and is left of the chain |
| Fat16.ReadIsCoherent | src/fs/fat16.c:198-236 | after any read, whatever was seeked before it, either `eof` is set or the relative position and the current sector are those of the chain element at pos / bytes_per_cluster; `eof` is set only at or past the end of the file or of its chain |
| Fat16.ResetIsCoherent | src/fs/fat16.c:280-286 | a cursor freshly opened or reset is coherent if and only if the item has a first cluster |
| Fat16.ReadSplit | src/fs/fat16.c:576-602 | reading a and then b gives the bytes and the final state of reading a + b |
| Fat16.AdjustedForRead | src/fs/fat16.c:576-594 | which of the three ways fat16_read takes after adjusting its cursor, and that each leads to the same final cursor as the flat reading |
| Fat16.ChunkAt | src/fs/fat16.c:63-75 | the bytes on disk at a cluster's address plus an offset are those of the flat content at that position |
| Fat16.AdvanceAt | src/fs/fat16.c:198-236 | re-deriving the cursor after moving on inside a cluster or to its end gives the coherent cursor of the new position and no table error |
| Fat16.Descriptor.AdjustCursorsNonRoot | src/fs/fat16.c:198-224 | case by case which fields change to what: on the chain, past an end marker, past a reserved or bad entry (an error), past a 0 entry, and for an item without clusters |
| Fat16.Descriptor.AdjustCursors | src/fs/fat16.c:226-237 | the same after a wrapping 32-bit move of the position |
| Fat16.Descriptor.ResetCursors | src/fs/fat16.c:280-286 | position 0, first sector, not ended; a recorded error stays |
| Fat16.Descriptor.Seek | src/fs/fat16.c:604-631 | SEEK_SET and SEEK_CUR set and move the position, wrapping in 32 bits, SEEK_END sets it to the size, `eof` is cleared, nothing else changes; an unknown whence changes nothing and is 1 |
| Fat16.Descriptor.constructor | src/fs/fat16.c:528-551 | an open item starts at position 0 at its first sector, and is the root, a subdirectory or a file as its type and its attributes say |
| Fat16.ReadFat | src/fs/fat16.c:77-90 | the entry is made of the two bytes at reserved_sectors * bytes_per_sector + 2 * cluster, little-endian, wherever the shared stream stood before; end markers are one fixed end marker |
| Fat16.FollowChain | src/fs/fat16.c:106-118 | the chain element that many links on, or the entry that ends the chain |
| Fat16Sharing.Interleave | src/fs/fat16.c:77-90 | any interleaving of reads, seeks and directory lookups on any number of descriptors over one stream leaves each descriptor, and answers each, as if it had been alone |
| Fat16Sharing.Perform | src/fs/fat16.c:337-631 | one read, seek or lookup, whatever the shared stream's position, changes the cursor and answers as specified for the descriptor alone |
| Fat16Sharing.StaysReady | src/fs/fat16.c:576-631 | what a descriptor needs for its next operation is kept by every operation, and positions stay in 32 bits |
| Fat16Directory.FindEntry | src/fs/fat16.c:337-391 | the item found is the first entry of that padded name and extension that is no long-name or volume-label entry, no list end lies before it, and with none the list has no such entry before its end; its cluster, size, name, kind, sectors and index are stated in the listed bytes and their offsets; the list is the content of the chain or, for a directory without a first cluster, the first 32 bytes of the disk; descriptors that are no directories give nothing and do not move |
| Fat16Directory.Search | src/fs/fat16.c:337-391 | the same against the functions by which lookups are specified |
| Fat16Directory.LookupBytes | src/fs/fat16.h:63-78 | what a lookup's result means in the bytes of the list |
| Fat16Directory.LookupIsInContent | src/fs/fat16.c:356-364 | the lookup is right about the directory's own content if and only if it has a first cluster or the bytes at its first sector do not match |
| Fat16Directory.PhantomEntry | src/fs/fat16.c:356-385 | on a volume with a certain header, 512 bytes per sector and all, every lookup of "A" in a directory without clusters finds a file that is not in the directory's content |
| Fat16Directory.PhantomLookup | src/fs/fat16.c:337-391 | such a lookup on a volume of one sector |
| Fat16Directory.LookupIsUnique | src/fs/fat16.c:337-391 | a directory's content, a name and an extension determine the result of a lookup |
| Fat16Directory.Verdict | src/fs/fat16.c:366-377 | the tests on one entry decide between passed over, list ended without any match, and first match |
| Fat16Directory.ReadEntry | src/fs/fat16.c:358-364 | entry i of the flat content is what the next read gives, also across a cluster boundary |
| Fat16Directory.StrncmpIsEquality | src/string/string.c:119-138 | comparing with a padded name is zero exactly on equal characters |
| FatVolume.ChainIsUnique | src/fs/fat16.c:106-118 | the first cluster determines the chain and the entry that ends it |
| FatVolume.ChainIsDistinct | src/fs/fat16.c:106-118 | a chain that reaches an end has no repeated cluster |
| FatVolume.ClustersDisjoint | src/fs/fat16.c:58-70 | distinct clusters occupy disjoint byte ranges |
| FatVolume.ContentFits | src/fs/fat16.c:58-70 | the clusters of a chain put together are no longer than the disk, so positions in them do not wrap |
| FatVolume.ContentSlice | src/fs/fat16.c:58-61 | within element q of a chain the flat content is what the disk holds there |
| FatVolume.SectorRoundTrip | src/fs/fat16.c:63-75 | a cluster number survives conversion to a sector and back, in 32- and 16-bit arithmetic |
| DiskStreams.DiskStream.Read | src/disk/disk_stream.c:26-53 | byte by byte, exactly the bytes from ppos on, at any alignment and length, at the caller's place, and no other byte of the buffer changes; ppos advances by as many; a failing block read or a length of 0 or less moves nothing |
| DiskStreams.DiskStream.Seek | src/disk/disk_stream.c:6-10 | the position is the one given, and so is the result |
| DiskStreams.NextChunk | src/disk/disk_stream.c:33-49 | copying the right part of the next sector extends the slice read so far |
| DiskStreams.OverwriteAt | src/disk/disk_stream.c:42 | each position of a buffer is written or kept |
| Paging.Machine.HardwareAgrees | src/memory/paging.c:18-36 | in every consistent directory the processor's walk from its frame and the view through kernel pointers translate every address below the recursive slot alike |
| Paging.Machine.KernelAgrees | src/memory/paging.c:18-36 | virtual_to_physical_addr gives that translation wherever there is one |
| Paging.Machine.RecursiveSlot | src/memory/paging.c:232-236 | address 0xFFC00000 + 4096 * i + offset leads the processor to that offset of page table i, or nowhere if there is none |
| Paging.Machine.PagingInit | src/memory/paging.c:220-270 | the processor translates every address below 0xFFC00000 as through the boot directory: a to a and 0xC0000000 + a to a for a below 4 MiB, and nothing else; now page by page and with large pages off; the two sides of the new directory agree and only two tables are made |
| Paging.SameAsBoot | src/kernel/kernel.asm:13-17 | the two large boot pages mean a to a and 0xC0000000 + a to a for a below 4 MiB and nothing elsewhere, and so does the initial view |
| Paging.Machine.MapFirstMegabytes | src/memory/paging.c:243-251 | the first 4 MiB at 0 and in the window, on an empty directory |
| Paging.Machine.MapPage | src/memory/paging.c:104-147 | the word of the page becomes that frame with those flags, and every other page keeps the word it had, absent ones included; one word of one table is written, and the directory's word only for a new table; unaligned addresses change nothing; both sides of the directory go on agreeing and no page in use is lost; the kernel's window stays linear if and only if no page of it was mapped elsewhere; one frame is taken exactly if the slot was empty |
| Paging.Machine.WriteEntry | src/memory/paging.c:123 | one word of one table is one page of the view, and the window stays linear exactly if it was another table or the same frame |
| Paging.Machine.InstallTable | src/memory/paging.c:113-117 | an empty slot gets a fresh, empty table, and its word names that table's frame |
| Paging.Machine.MapRange | src/memory/paging.c:149-167 | page virt / 4096 + i gets frame phys / 4096 + i with those flags for each i below the count, across any number of tables, and every other page keeps the word it had, absent ones included; tables come only into empty slots of the range, one frame for each |
| Paging.Machine.MapFromTo | src/memory/paging.c:169-186 | the same for a physical interval, with the exact error condition |
| Paging.MappedAt | src/memory/paging.c:149-167 | each page of a view is mapped or kept |
| Paging.MappedShows | src/memory/paging.c:149-167 | every address a of a mapped range translates to phys + (a - virt) |
| Paging.StillShows | src/memory/paging.c:149-167 | and addresses outside the range translate as before |
| AddressSpaces.CloneDirectory | src/memory/paging.c:188-218 | the clone translates every address below the recursive slot as its source does; slot by slot, it is empty where the source is, shares the kernel's table where the source's word is the kernel's, and holds a fresh table with the same words and flags elsewhere; its last slot is itself |
| AddressSpaces.CloneTranslates | src/memory/paging.c:193-210 | slots shared or copied that way give the same view |
| AddressSpaces.CloneSlot | src/memory/paging.c:193-210 | one iteration: empty, shared or freshly copied, and no other slot touched |
| AddressSpaces.SealClone | src/memory/paging.c:212-215 | with its last slot set to itself the clone is a consistent directory |
| AddressSpaces.CloneInto | src/memory/paging.c:188-218 | a clone of any address space joins the others: all still have nothing in common but kernel tables |
| AddressSpaces.CloneIsSeparate | src/memory/paging.c:199-209 | a clone has no table in common with any other directory but a kernel table in its own slot |
| AddressSpaces.UnsharedIsPrivate | src/memory/paging.c:199-209 | a table in a slot not shared with the kernel belongs to no other address space |
| AddressSpaces.MapInto | src/memory/paging.c:169-186 | mapping in one address space outside its kernel slots changes no translation of the kernel or of any other, and keeps them separate |
| ProcessMemory.MapMemory | src/kernel/task/process.c:116-150 | code and stack addresses of the process translate to the same physical bytes as the kernel's addresses of that memory; its pages are those, and every other page is the kernel's; no translation of the kernel or of another process changes; at most 17 frames are used, and with as many left the next process can be built the same way |
| ProcessMemory.MapBoth | src/kernel/task/process.c:116-150 | the same against the function that specifies the view of a process |
| ProcessMemory.ProcessPages | src/kernel/task/process.c:124-145 | that view, page by page and address by address |
| ProcessMemory.MapBlock | src/kernel/task/process.c:128-145 | one of its two mappings: which pages are mapped where, and nothing else |
| ProcessMemory.ReadyAfterInit | src/memory/paging.c:220-270 | the state that paging_init leaves is one on which processes can be built |
| BlockScan.SearchIsSafe | src/memory/heap.c:55-84 | the search stays in the table and ends with an answer that can be used if and only if the cursor is before the last block and a fitting run lies after the cursor, or the last block is taken, or the leftover at the end is stopped by a taken block after which a run lies |
| BlockScan.SafeOutcome | src/memory/heap.c:55-84 | how it then ends: the least fitting start after the cursor; failure with the cursor at 0; or the least one after the first taken block |
| BlockScan.UnsafeOutcome | src/memory/heap.c:55-84 | otherwise it starts past the table, does not end, or its answer is no run of the table |
| BlockScan.Pass | src/memory/heap.c:63-77 | one pass to the table's end finds the first run or leaves exactly the free tail over |
| BlockScan.WrappedRun | src/memory/heap.c:63-77 | a concrete table on which the answer is a run past the table's end |
| BlockScan.EndlessSearch | src/memory/heap.c:63-77 | a concrete table on which the search never ends |
| BlockHeap.Heap.FindFirstBlock | src/memory/heap.c:55-84 | the source's loop, with its moving bound, terminates with that outcome wherever the search is safe |
| BlockHeap.Heap.ReserveBlocks | src/memory/heap.c:86-101 | the region's cells become one tagged run; no other cell changes |
| BlockHeap.Heap.MallocBlocks | src/memory/heap.c:113-126 | a region that was free, the one the search gives, is taken and is the only change to the live regions; NULL exactly for no blocks, or when no run lay after the cursor and the table's end was taken, and then the table is as before |
| BlockHeap.Heap.Malloc | src/memory/heap.c:128-138 | from a size in bytes: the least fitting run after the cursor, else the one found by starting again, all of it free before and tagged cell by cell afterwards, no other cell changed, the counter and the cursor moved along, the address block-aligned; NULL only for size 0 or with no run after the cursor; a held last block stays held and the next search is safe again |
| BlockHeap.MallocedIs | src/memory/heap.c:55-126 | what an allocation means, cell by cell |
| BlockHeap.Heap.Free | src/memory/heap.c:140-161 | with the FIRST tag on the block: that cell and the cells up to the next free or FIRST one are cleared, no other cell changes, and the counter falls by as many; without it nothing changes; the only pointers excluded are those for which the code reads past the table |
| BlockHeap.Heap.FreeRegion | src/memory/heap.c:140-161 | the same in terms of live regions |
| BlockHeap.FreedIs | src/memory/heap.c:154-160 | what freeing means, cell by cell |
| BlockHeap.FreeLeavesTable | src/memory/heap.c:154-160 | the loop that frees a region reads past the table if and only if the region ends with the table |
| BlockHeap.FreeOfLastBlock | src/memory/heap.c:154-160 | a concrete table on which it does |
| BlockHeap.Heap.CountUsedBlocks | src/memory/heap.c:163-173 | counting gives the value of the `in_use` counter |
| BlockHeap.Heap.AddrToBlock | src/memory/heap.c:108-111 | the block in which the address lies |
| BlockHeap.Heap.constructor | src/memory/heap.c:30-48 | an all-free table with nothing live and the cursor at 0 |
| BlockHeap.SizeToBlocks | src/memory/heap.c:50-53 | the least number of blocks that holds the size |
| BlockHeap.RetryLaw | src/memory/heap.c:55-84 | from cursor 0, where a failure leaves it, the search succeeds if and only if some run lies between the first block and the held last one |
| BlockHeap.ClosedIsSafe | src/memory/heap.c:55-84 | with the last block held every search is safe |
| HeapHistory.PerformAll | src/memory/heap.c:113-161 | any calls of malloc and free in any order, from any table, each safe when it happens: every call gives the address and the table it must, the run is the history of the regions its calls took and gave back, the live regions are those taken and not given back, the table is exactly free cells and tagged runs, and `in_use` is the live sizes added up |
| HeapHistory.Perform | src/memory/heap.c:113-161 | one call: a malloc that gives an address takes the blocks from that address on that its size needs, a free of a head gives that region back, and any other call leaves the table alone |
| HeapHistory.RunIsHistory | src/memory/heap.c:113-161 | a run of calls changes the table by the history of what its calls mean |
| HeapHistory.HistoryLaw | src/memory/heap.c:86-161 | over every history of regions taken and given back, from any tagged table: the table is exactly free cells and tagged runs, its live regions are those taken and not given back, and the blocks in use are the live sizes added up; a held last block stays held unless it is given back |
| HeapHistory.TableLaw | src/memory/heap.c:86-101 | any tagged table is exactly free cells and tagged runs, and its blocks in use are the live sizes added up |
| HeapHistory.StepLaw | src/memory/heap.c:86-161 | one step of such a history changes exactly one live region |
| HeapHistory.LayoutIsLive | src/memory/heap.c:86-101 | the runs of the layout and the live regions have the same sizes, added up |
| HeapHistory.FreshRunIsSafe | src/memory/heap.c:113-161 | from a table that is free after the cursor, the empty one included, every run of calls that asks in all for fewer blocks than lie there is safe, whatever it frees in between |
| HeapHistory.HeldRunIsSafe | src/memory/heap.c:113-161 | with the last block held and the cursor before it, every run of calls below the held block is safe |
| HeapHistory.FillsTable | src/memory/heap.c:55-84 | from the empty table a safe allocation of all blocks but the first leaves the cursor on the last block, and no further allocation is safe |
| HeapHistory.NeverBecomesHeld | src/memory/heap.c:113-161 | no safe call leads to a held last block with the cursor before it from a table without |
| BlockTable.TableIsLayout | src/memory/heap.c:86-101 | a tagged table is the rendering of a list of free cells and runs, and the taken cells are the sizes of the runs added up |
| BlockTable.LiveDisjoint | src/memory/heap.c:86-101 | live regions are disjoint and inside the table |
| BlockTable.RegionShape | src/memory/heap.h:10-25 | a region carries FIRST on its head only and HAS_NEXT on all but its tail |
| BlockTable.HasHead | src/memory/heap.h:10-25 | every taken cell lies in the region of a head |
| BlockTable.ReservedLive | src/memory/heap.c:86-101 | reserving a free run adds that region and changes no other |
| BlockTable.ClearedLive | src/memory/heap.c:154-160 | clearing a region removes it and changes no other |
| BlockTable.ClearUndoesReserve | src/memory/heap.c:86-161 | free after malloc restores the table's entries |
| Scheduler.RunKeepsOk | src/kernel/task/task.c:45-66 | in every run of ticks and insertions the ring stays well formed, and its members afterwards are exactly those before and the inserted tasks |
| Scheduler.DispatchLaw | src/kernel/task/task.c:255-287 | a task at forward distance d is dispatched at exactly tick d + k, where k counts the insertions before it is reached, and at no earlier tick |
| Scheduler.TicksRotate | src/kernel/task/task.c:255-287 | m ticks without insertions turn the ring by m and dispatch the tasks in ring order |
| Scheduler.FullRound | src/kernel/task/task.c:255-287 | N ticks without insertions dispatch each of the N tasks exactly once |
| Scheduler.ResumeLaw | src/kernel/task/task.c:229-287 | in every run a task resumes with the frame stored at its latest preemption, or its initial one |
| Scheduler.ResumesStored | src/idt/idt.c:105-115 | resuming the saved frame of the dispatched task is resuming the one stored at its latest preemption, or its initial one |
| Scheduler.Cpu.TimerInterrupt | src/idt/idt.c:105-115 | a timer interrupt performs one tick: the ring turns by one, the preempted task stores the pushed frame and no other task's frame changes, and the next task is resumed with its stored frame, its stack and its page directory |
| Scheduler.Cpu.Schedule | src/kernel/task/task.c:255-287 | one tick; afterwards `tss.esp0` and CR3 belong to the running task; only the preempted task's switch count changes; without a current task nothing happens |
| Scheduler.ValidIs | src/kernel/task/task.c:45-66 | a processor is in order if and only if the ring is circular both ways without repetition, starts at the running task, and `tss.esp0` and CR3 are that task's |
| Scheduler.Cpu.Store | src/kernel/task/task.c:229-235 | the task's saved frame is the one given |
| Scheduler.Cpu.Insert | src/kernel/task/task.c:45-57 | the new task comes right after the running one; nobody's frame changes |
| Scheduler.Cpu.RunEvents | src/kernel/task/task.c:45-287 | any run of timer interrupts and insertions of new tasks on the linked ring is that run on values, so the laws above hold of it; each interrupt resumes the dispatched task with the frame last stored for it in the run so far; `current_task`, `tss.esp0` and CR3 stay in order throughout |
| Scheduler.Cpu.Handle | src/kernel/task/task.c:45-287 | one event is one step, an interrupt resumes the dispatched task's stored frame, and the ring gains the inserted task only |
| Scheduler.Cpu.UnlinkTask | src/kernel/task/task.c:61-64 | its four link assignments make the shorter ring |
| Scheduler.Cpu.LinkTask | src/kernel/task/task.c:47-50 | the four link assignments make the longer ring |
| Scheduler.Cpu.Remove | src/kernel/task/task.c:59-66 | the rest stays a ring; the processor state stays in order if and only if the task was not the running one |
| Scheduler.Cpu.WalkTasks | src/kernel/task/task.c:16-26 | the walk visits each task of the ring once, in order |
| Scheduler.Cpu.constructor | src/kernel/task/process.c:152-183 | the ring of the one system task, with the processor set up for it |
| NodeList.AddNodeBefore | list.c:95-115 | a new last element; in an empty list, the only one |
| NodeList.PushBack | list.c:117-120 | the same |
| NodeList.PushFront | list.c:122-126 | a new first element and head |
| NodeList.ExtractNode | list.c:128-152 | the head leaves and becomes a ring of its own; the rest is the tail |
| NodeList.PopBack | list.c:154-164 | the last element leaves |
| NodeList.PopFront | list.c:166-175 | the first element leaves |
| NodeList.FindIndex | list.c:177-195 | the node at that position, NULL beyond the length |
| NodeList.PopIndex | list.c:197-210 | that position leaves; beyond the length nothing changes |
| NodeList.PushIndex | list.c:212-244 | a new element at that position, the end included; beyond the length nothing changes |
| NodeList.Swap | list.c:246-274 | the nodes, of one ring or of two, are exchanged and the exchanged sequences are rings if and only if the nodes are the same, or the second is not immediately before the first and neither is alone in its ring |
| NodeList.SwapInRingOfTwo | list.c:246-274 | a ring of two nodes on which it fails: the first node ends up linked to itself |
| NodeList.ExchangeInRings | list.c:252-269 | what the link assignments make of the rings of the two nodes |
| NodeList.ExchangeableInRing | list.c:252-269 | within one ring the condition is that the second node is not immediately before the first |
| NodeList.ExchangeableIs | list.c:252-269 | the condition within one ring, and for two rings: neither node is alone |
| NodeList.ExchangedAre | list.c:246-274 | the exchanged sequences by position, for one ring and for two |
| NodeList.ExchangedAt | list.c:246-274 | within one ring the exchanged sequence is the sequence with two positions exchanged |
| NodeList.ExchangeLinks | list.c:252-269 | on any nodes whose links can be followed back, the assignments exchange the two nodes, as holders of links and as their targets, if and only if they are exchangeable |
| NodeList.ExchangedIsRing | list.c:252-269 | the exchanged sequence is a ring if and only if the links of its nodes are the old ones with the two nodes exchanged |
| NodeList.DeleteList | list.c:21-35 | every node is freed once, in order, and the head becomes NULL |
| NodeList.RingIsUnique | list.c:8-12 | head and links determine the sequence |
| NodeList.RingIs | list.c:95-126 | a sequence is a ring if and only if it has no repetition and its links lead from each node to the next and back, and around |
| NodeList.RotatedIsRing | list.c:154-175 | a ring read from any of its nodes is a ring |
| NodeList.RemovedAt | list.c:197-210 | removing the head of the ring read from position k removes position k |
| NodeList.AddedAt | list.c:241-243 | adding before the head of the ring read from position k inserts at position k |
| PathParser.Parse | src/fs/path_parser.c:22-62 | a text is accepted if and only if its visible part (up to 250 characters) has at least three characters, a digit and then ':' and '/'; the drive is that digit; the parts are non-empty and slash-free, and the rest of the text is the parts joined, alone or followed by a slash after which comes the end or another slash |
| PathParser.Split | src/fs/path_parser.c:22-62 | the same against the components of the text: those before the first empty one |
| PathParser.ParsedIs | src/fs/path_parser.c:11-62 | what the parse of a text is |
| PathParser.PartsEnd | src/fs/path_parser.c:42-59 | the text goes on after the parts found only where a component is empty |
| PathParser.PartsStep | src/fs/path_parser.c:44-59 | one iteration takes the first component and leaves the parts of what follows the slash |
| PathParser.PartsOfJoin | src/fs/path_parser.c:42-59 | the parts of joined proper parts are those parts |
| PathParser.JoinOfParts | src/fs/path_parser.c:42-59 | the parts found are proper, and joined again they are how the text begins |
| PathParser.PrintThenParse | src/fs/path_parser.c:22-62 | parsing undoes printing if and only if all parts are proper and the text has at most 250 characters |
| PathParser.ParseThenPrint | src/fs/path_parser.c:22-62 | whatever is accepted prints back to a beginning of what was read |
| PathParser.Strnlen | src/string/string.c:96-104 | the characters before the terminator, at most the bound |
| PathParser.IndexOf | src/string/string.c:38-47 | the first occurrence, or the length |

## Left out

- The cursor branch for the root directory (src/fs/fat16.c:120-135), which compares a byte position with a sector number, and therefore the traversal of whole paths from the root.
- The FAT write and allocation stubs, `fat16_read_file`, `fat16_count_dir_items` and src/fs/fat.cc.
- Chains that leave the data area before their last entry. Chains that end in 0, in a reserved or in a bad entry are modelled down to the cursor's error; reading is stated for files whose chain ends in an end marker, whether or not it covers their size.
- Fat16.Descriptor.ReadBytes: the error branches of `__fat16_read` (src/fs/fat16.c:432-440) are not taken for a registered disk and a proper chain, and are not written.
- Fat16Directory.FindEntry: the allocation of the result is taken to succeed, and a directory without a first cluster is taken to have its first sector on the disk.
- Fat16.Descriptor.Read: `eof` set before the end of the file and of its chain, which no sequence of opens, seeks, reads and lookups produces, is excluded by `EofIsHonest`; all of these keep it so (`Fat16Sharing.StaysReady`).
- `fopen`, `fclose`, `stat`, the file table and the probing of file systems: plumbing.
- BlockHeap.Heap.Free: the contents of heap memory are not modelled, so neither is the overwriting of the first freed block. A pointer for which the code reads past the table is excluded, since what it then does depends on the memory there.
- BlockHeap.Heap.constructor: the alignment and length checks of `heap_create` are taken to have passed.
- BlockHeap.Heap.Malloc: addresses are unbounded integers, so a heap that reaches the end of the 32-bit address space is not covered.
- BlockHeap.Heap.FindFirstBlock: a search that starts past the table, does not end or answers with a run that is none is excluded; `BlockScan.SearchIsSafe` says exactly which these are.
- Paging.Machine.MapPage: the flags of a directory word that exists already are not widened by the source either; the views speak of translation and presence, not of permissions. Its second null check (src/memory/paging.c:119-121) cannot be taken when memory is left and is not written. Its printing is left out. The pages it changes are taken not to be pages of another, current directory, except for the table that shows the kernel's window.
- Paging.Machine.MapRange: a range that maps pages of the kernel's window elsewhere than the window shows them is not covered, since the tables allocated after that get wrong physical addresses; for a single page `MapPage` covers it.
- Paging.Machine.MapFromTo: as MapRange.
- Paging.Machine.PagingInit: the page bitmap, the panics and the release of the boot handle are left out.
- Page words are a sequence-valued field of a page object, so two pages never overlap in part. The translation lookaside buffer is left out.
- AddressSpaces.MapInto: the kernel's directory is the current one, as in the source, where nothing calls `paging_switch_directory`.
- ProcessMemory.MapMemory: the two panics for missing memory cannot be taken for a block in the kernel's window, and are not written.
- Scheduler.Cpu.Schedule: does not speak of `current_process`, which the source does not update when it switches tasks.
- The ring and the table of processes (src/kernel/task/process.c:34-61): the links are assigned as in `NodeList.PushBack` and `Scheduler.Cpu.Remove`, and the table is a lowest-free-slot search.
- `process_load` and the clean-up of `process_init`, and the register image a new task starts with.
- NodeList.DeleteList: freed memory is a recorded sequence of calls to `free`; allocation succeeds everywhere.
- PathParser.Parse: the linked list of parts is a sequence. The branches for a negative drive number and for failed allocations are not written.
- Drivers, interrupt and boot assembly, terminal output, `panic`, segment descriptors, `buffer.c`, and the parts of `string.c` not named above.
