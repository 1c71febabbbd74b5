# LightOS, modelled and proved

LightOS is a small 32-bit kernel with a copy-on-write virtual memory, a block
buffer cache, a MINIX-style file system, and the usual schedulers, locks and
queues. This project models those parts in Dafny and proves what they are for.

Each part has a state, functions on it that say what an operation does, and
lemmas about whole runs. Where the kernel updates things in place, a class
does so too, and each of its methods is proved to compute the function. Of
the kernel's own asserts and panics some are proved unreachable; for the calls
of the memory system the exact condition of every stop is proved; the others,
such as a full disk, are preconditions of the operations that meet them.

| part | modules | main results |
|---|---|---|
| virtual memory | Paging, Fork, CopyOnWrite, Stops, EagerCopy, VmRuns, MemoryLaw; class AddressSpaces.Memory | each step shows user loads and stores what a machine that copies everything at fork shows, or stops the kernel, and exactly when it stops; a load delivers the last word stored at its address, and each operation touches one word or one page of one process |
| memory as a whole | SharedPool, SystemRuns, TaskLifetimes | copy on write cannot be told by user loads and stores over any run in which user frames and kernel pages come out of one count of free pages; every frame accounted for in every state reachable from boot; exit and wait undo fork, and exactly when exit gets through |
| buffer cache | BlockCache; class CacheManager.Manager | the cache cannot be told from the raw disk; one buffer per block; counts are the references given out; least recently released is evicted |
| block tree | BlockMap; class BlockTree.FileSystem | bmap maps one block, where the disk format says, and disturbs none; truncation frees each zone once and undoes allocation |
| file contents | ZoneSupply, FileIo | chunked reads and writes are a flat byte string; a write goes through exactly when the free zones do for its empty slots |
| names and links | Links; class Directories.Directory | link counts, names, inode bitmap and directory tree agree after any run; exactly when each call goes through |
| paths | AbsPath | the in-place normaliser is a stack machine over components |
| program start | ExecImage | the start-up code reads back what execve was given |
| disk queue | Elevator | one active request, none lost, two sweeps a batch |
| locks | RwLock | who asked to write is alone, for any number of threads and any interleaving |
| pipes | Kfifo, Pipes | no byte lost, doubled or reordered; never both sides asleep |
| processes | Processes, Scheduler | living parents up to init; bounded waiting |
| kernel pages | Bitmaps, KernelPages | lowest clear run; bits and counts agree; live runs disjoint |
| lists | Lists, IntrusiveLists | the pointer operations are operations on sequences |

`dafny verify dfyconfig.toml` checks everything.

## Where the code does less than it promises

The model follows the code. Each of these is proved with the condition under
which the promise holds.

- A write fault asserts that a copied page has one or two users
  (src/kernel/memory.c:733). A store works exactly when at most two entries
  name the frame: `VmRuns.StoreWorksIffTwoSharers`. A parent that forks twice
  and then stores panics: `VmRuns.TwoForksThenStorePanics`. For any store at
  all the condition is in `Stops.StoreStopsIff`.
- A store to a page marked readonly kills the process unless the page is shared
  memory; then the fault asserts that it is not (src/kernel/memory.c:713)
  before it comes to the kill (:725): `Stops.ReadonlyStoreKillsIff`. Memory
  mapped MAP_SHARED without PROT_WRITE gets there:
  `VmRuns.ReadonlySharedStorePanics`.
- put_user_page asserts that some page is free after it
  (src/kernel/memory.c:337), which fails when the page has another user and
  all memory is taken, the kernel's part included. So exit, every kill and
  unlink can stop the kernel: `Stops.FreeFitsIff`, `Stops.UnlinkStopsIff`. After
  a fork the child can exit unless the fork took the last page there was, the
  one for the mapping bitmap among them, and the parent has a page in its lowest
  page table: `TaskLifetimes.ChildExitsIff`. A run from boot that ends so, in
  which the kernel's heap has grown over the rest of kernel memory:
  `TaskLifetimes.ExitCanStop`.
- The kernel never sets WP in CR0 (src/kernel/memory.c:177,
  src/boot/loader.asm:64), so its own writes to user memory, as in sys_read, pay
  no heed to the write bit. One to a page that waits to be copied is seen by the
  other process too: `EagerCopy.KernelWriteSimulatesIff`.
- Mapping over a page that still waits to be copied makes it writable for two
  processes: `VmRuns.MmapKeepsInvIffSafe`, and `VmRuns.UnsafeMmapShowsIff` for
  the store that shows it. Runs in `SystemRuns.CowInvisible` map safely.
- getblk does not look again after it has slept for a buffer
  (src/kernel/cache.c:107-125): `BlockCache.WakingKeepsUniqueIff`,
  `BlockCache.TwoSleepersDuplicate`. Runs take `bread` as one step, with a
  buffer to be had.
- balloc does not clear the zone it hands out, so a fresh index block may hold
  rubbish: `BlockMap.LinkChangesOneSlotIffClean`. `CleanWalk` is the
  precondition that it reads as zeros; whole writes ask that those free zones do
  which will become index blocks (`ZoneSupply.GoesIff`).
- The size comparison of inode_write wraps at 32 bits:
  `FileIo.RefusedIffTooLong`, `FileIo.HugeWritePasses`. A write past the end
  can leave blocks that inode_read asserts on: `FileIo.SeekWriteWholeIff`.
- Link counts have 8 bits, and names are cut to 13 characters when stored but
  compared in full: `Links.CallKeepsInvIff` (the condition is `Links.Safe`),
  `Links.LinkWraps`, `Links.LongNamesCollide`.
- is_dir_empty reads the first block over and over (src/fs/namei.c:538, where
  the index is `1 / BLOCK_DENTRIES`): `Links.LooksEmptyIff`,
  `Links.LongEmptyDirLooksFull`.
- A process that waits for any child (pid -1) is not woken by the end of one:
  `Processes.ExitWakesIff`.

## Model

| member | source | states |
|---|---|---|
| SystemRuns.CowInvisible | src/kernel/memory.c:363-411 | over every run of fork, user loads and stores with their faults, link, unlink, safe mmap, exit, waiting for dead children and kernel allocations in between, each process sees exactly what a machine that copies the whole address space at fork would show it, with kills where that machine kills, and the states match; if the kernel stops on the way, it is at a call where CallStops holds. What a page and a word are is fixed by MemoryLaw.SamePageIff, and what both machines show by MemoryLaw.StepLaw |
| SystemRuns.CallStopsIff | src/kernel/memory.c:246-340 | a call stops the kernel if and only if the table of tasks is full at a fork, fewer than three kernel pages or fewer user frames than page tables are free for it, no run of kernel pages is long enough, or a user step stops as VmRuns.StepStops says |
| SystemRuns.CallSimulates | src/kernel/task.c:300-420 | one call stops the kernel exactly where CallStops holds, and else does and shows what the eager machine does and keeps every frame accounted for |
| SystemRuns.ForkTaskStopsIff | src/kernel/task.c:300-329 | sys_fork panics for want of memory if and only if fewer than three kernel pages (control block, directory, mapping bitmap) or fewer user frames than the parent's page tables are free, and takes that many from free_pages |
| SystemRuns.CallKeepsInv | src/kernel/memory.c:246-340 | no call breaks the accounting: a user frame's count is the number of entries naming it, a kernel page is reserved, free or one owner's, and free_pages counts the free ones of both |
| MemoryLaw.SamePageIff | src/kernel/memory.c:572-596 | two addresses are on one page if and only if they agree when divided by 4096, and in one word if and only if they agree when divided by 4 |
| MemoryLaw.StepLaw | src/kernel/memory.c:598-775 | every operation, on every word of every process: a store at a is seen at b exactly when a / 4 = b / 4 and the page is the same process's or one piece of shared memory; link and safe mmap give the page of a alone, unlink takes that page alone away, fork gives the child the parent's words, a kill takes the words of its process alone, and every other word and every other page stays as it was |
| MemoryLaw.LastStoreIsLoaded | src/kernel/memory.c:697-775 | a process loads from a page of its own what it last stored there, over any run of operations of all processes in between |
| MemoryLaw.OwnWordStays | src/kernel/memory.c:363-411 | a word in a page of one's own stays over any run in which its process does not store to that word, unmap or share the page, or end |
| MemoryLaw.StoredIsSeen | src/kernel/memory.c:703-748 | a store that goes through is seen at the four addresses of its word |
| MemoryLaw.LoadSees | src/kernel/memory.c:752-766 | a load of a word that is there delivers it and changes nothing |
| MemoryLaw.JointIsOnePage | src/kernel/memory.c:816-864 | shared memory is at the same page in every address space that has it |
| VmRuns.StepStopsIff | src/kernel/memory.c:306-340 | the part of a call that works on user frames stops the kernel if and only if its frames are short by count, or a frame given back has another user while none is free, or a page waiting for copying has more than two users, or a shared page is stored to without permission, or init or idle is to end |
| VmRuns.StepSimulates | src/kernel/memory.c:703-774 | one system call, access or fault of the copy-on-write kernel stops it exactly where StepStops holds, and else does and shows what the eager machine does, killing where that kills |
| TaskLifetimes.ReachableInv | src/kernel/memory.c:144-168 | from boot, with idle and init made, every reachable state has exact accounting of user frames and kernel pages in the one table, private page tables, sound entries (writable and not shared means one user), and all users of a frame agree on sharing and have it at the same page |
| TaskLifetimes.StartedOk | src/init/init.c:31-40 | the state after memory_map_init and the making of idle and init is sound, and has all frames free but those of the boot and four kernel pages |
| SystemRuns.RunKeepsInv | src/kernel/memory.c:246-340 | no run of calls and faults, with kernel pages taken and given in between, breaks the accounting or the copy-on-write invariant |
| VmRuns.BootedInv | src/kernel/memory.c:144-168 | the table that memory_map_init leaves satisfies the accounting |
| VmRuns.AllExitedAllFree | src/kernel/task.c:399-483 | once no process has an address space every user frame has count zero: exit leaks nothing |
| TaskLifetimes.ExitUndoesFork | src/kernel/task.c:399-418 | exit of a forked child restores every entry of mem_map but that of the page with its control block, and directory and mapping bitmap have no owner any more |
| TaskLifetimes.WaitUndoesFork | src/kernel/task.c:293-297 | after the child has been waited for mem_map, free_pages and all owners of kernel pages are as before the fork |
| TaskLifetimes.ChildExitsIff | src/kernel/memory.c:322-340 | the exit of a child right after its fork stops the kernel if and only if the fork's kernel pages and page tables were all the frames there were and the parent's lowest page table has a page |
| VmRuns.ExitRestoresUsers | src/kernel/memory.c:432-464 | exit of a child gives every user frame the count from before the fork, whatever the kernel has taken for itself since, and leaves the kernel's counts |
| TaskLifetimes.ExitCanStop | src/kernel/memory.c:322-340 | a run from what memory_map_init leaves, with three user frames, in which kernel pages are taken one by one until three are left, ends with the exit of the first child stopping the kernel |
| SharedPool.TakeRunOk | src/kernel/memory.c:246-264 | alloc_kpage takes the lowest run of free kernel pages, makes them one owner's, and keeps the accounting of user frames in the same table |
| SharedPool.GiveRunOk | src/kernel/memory.c:267-286 | free_kpage frees what its owner held and nothing of the others, and keeps the accounting of user frames |
| SharedPool.TakeOneIff | src/kernel/memory.c:246-264 | one page is to be had if and only if a kernel page is free, and then there is one less, and no fewer user frames |
| SharedPool.KernelOnlyKeepsInv | src/kernel/memory.c:246-286 | whatever the kernel takes and gives for itself keeps the frame accounting and the copy-on-write invariant |
| VmRuns.ReadonlySharedStorePanics | src/kernel/memory.c:713-726 | after a page has been mapped as shared memory and not for writing, a store to it stops the kernel |
| Stops.StoreStopsIff | src/kernel/memory.c:697-775 | exactly when a store stops the kernel, for every address, permission, sharing and count |
| Stops.LoadStopsIff | src/kernel/memory.c:752-775 | exactly when a load stops the kernel: never where the page is there |
| Stops.ReadonlyStoreKillsIff | src/kernel/memory.c:713-726 | with a frame free a store to a page marked readonly kills its process and frees its memory, if and only if the page is not shared memory; else it panics |
| Stops.KillStopsIff | src/kernel/task.c:399-412 | sys_exit comes to the end with everything freed, or stops the kernel, exactly as KillStops says |
| Stops.FreeFitsIff | src/kernel/memory.c:322-340 | the asserts of put_user_page hold all through free_pte if and only if a frame is free before, or there is nothing to give back, or the first frame given back has no other user |
| Stops.FreeFrameFits | src/kernel/memory.c:432-464 | with one frame free at the start every assert on free_pages holds in free_pte |
| Stops.UnlinkStopsIff | src/kernel/memory.c:626-650 | unlink stops if and only if the page has another user while no frame is free, or its page table is missing and no frame is free for it |
| Stops.LinkStopsIff | src/kernel/memory.c:598-624 | link runs out of memory if and only if fewer frames are free than the page and its missing table want |
| Stops.ForkStopsIff | src/kernel/memory.c:371-405 | the loops of copy_pte take one user frame for each page table, and fail if and only if fewer are free |
| Stops.CopyStopsIff | src/kernel/memory.c:733-736 | the copy of a page with two users fails if and only if no user frame is free |
| VmRuns.StoreWorksIffTwoSharers | src/kernel/memory.c:728-733 | a store to a private page that may be written succeeds, with a frame free, if and only if at most two entries name its frame; otherwise it panics |
| VmRuns.TwoForksThenStorePanics | src/kernel/memory.c:733 | a parent that forks twice and then stores to a private page makes the assert on the count fail, for every such state |
| VmRuns.MmapKeepsInvIffSafe | src/kernel/memory.c:816-864 | mapping a page keeps the invariant if and only if it does not make writable or shared a private page whose count is not one |
| VmRuns.UnsafeMmapShowsIff | src/kernel/memory.c:816-864 | after an unsafe mapping some store that passes changes a private page of another entry if and only if the mapping asked for write permission |
| VmRuns.StepInv | src/kernel/memory.c:703-774 | every step that does not panic keeps the invariant, also one that ends with the process killed |
| Paging.TableFrameIsPrivate | src/kernel/memory.c:572-596 | a frame holding a page table is named by its one directory entry and by nothing else |
| Paging.CountAtMostTasks | src/kernel/memory.c:401 | a frame has one user in each process at most, so no count passes TASK_NR and the assert below 255 cannot fail |
| Paging.FreeFrameIsUnnamed | src/kernel/memory.c:306-319 | a frame with count zero is neither a page table nor mapped anywhere |
| Paging.AddTableKeepsInv | src/kernel/memory.c:572-596 | hanging a cleared page table into a directory keeps accounting and invariant |
| Paging.AddPageKeepsInv | src/kernel/memory.c:598-624 | mapping a free frame at an empty entry keeps the invariant and changes no other entry |
| Paging.RemovePageKeepsInv | src/kernel/memory.c:626-650 | unmapping a page keeps the invariant, its frame was counted, and no other entry changes |
| Paging.RemoveTableKeepsInv | src/kernel/memory.c:432-464 | releasing an emptied page table keeps the invariant |
| Paging.SetFlagsKeepsInv | src/kernel/memory.c:728-730 | changing the permission bits of an entry keeps the invariant when the new bits are sound and sharing changes only for a page with one user |
| Paging.WriteFrameKeepsInv | src/kernel/memory.c:735-738 | writing into a mapped frame keeps the invariant |
| Fork.ForkTableKeepsInv | src/kernel/memory.c:363-411 | copying one page table, write-protecting both sides and counting every page again keeps the invariant |
| Fork.ForkTableCountsFit | src/kernel/memory.c:400-401 | after one table of copy_pte every count is below the limit asserted |
| Fork.ForkTableKeepsAccounting | src/kernel/memory.c:380-405 | after one table of copy_pte each frame has as many names as its count says |
| CopyOnWrite.EnsureTableOk | src/kernel/memory.c:572-596 | get_pte makes a missing table, maps nothing and keeps every entry |
| CopyOnWrite.LinkPageMaps | src/kernel/memory.c:598-624 | linking maps the page, to a frame with one user if it was not mapped, and keeps every other entry and page |
| CopyOnWrite.FreeFromOk | src/kernel/memory.c:432-464 | free_pte leaves no table to its process and keeps everything of the others |
| CopyOnWrite.ExitOk | src/kernel/task.c:399-420 | exit keeps the invariant, removes all mappings of its process, and keeps those of the others |
| CopyOnWrite.NewSpaceOk | src/kernel/memory.c:355-361 | the new address space of a fork starts without user tables and leaves all else alone |
| CopyOnWrite.CopyPageOk | src/kernel/memory.c:733-744 | the copy made on a write fault has the old contents in a frame of its own, and nothing else changes |
| CopyOnWrite.PageFaultServes | src/kernel/memory.c:665-775 | after a fault has been served the faulting access goes through, and no page of any process has changed |
| EagerCopy.ForkSimulates | src/kernel/task.c:300-378 | fork with shared frames corresponds to copying the whole address space |
| EagerCopy.ForkUpToSimulates | src/kernel/memory.c:363-411 | after any number of directory entries copy_pte corresponds to having copied that part of the address space |
| EagerCopy.StoreSimulates | src/kernel/memory.c:703-748 | a store, with the fault it may take, corresponds to a plain store into the private copy |
| EagerCopy.LoadSimulates | src/kernel/memory.c:752-766 | a load sees the word the eager machine sees, also where the stack grows by it |
| EagerCopy.UnlinkSimulates | src/kernel/memory.c:626-650 | unlink corresponds to erasing one page of one address space |
| EagerCopy.LinkSimulates | src/kernel/memory.c:598-624 | link corresponds to adding a page with arbitrary contents |
| EagerCopy.ExitSimulates | src/kernel/task.c:399-420 | exit corresponds to dropping one address space |
| EagerCopy.MmapSimulates | src/kernel/memory.c:816-864 | a safe mapping corresponds to giving one page new permissions, or to making it a shared object that no process has yet |
| EagerCopy.KernelWriteSimulatesIff | src/kernel/memory.c:172-181 | a write that ignores the write bit keeps copy on write invisible if and only if the page is shared memory, has one user, or keeps its contents |
| AddressSpaces.Memory.constructor | src/kernel/memory.c:144-168 | clears the counts, marks the pages in use at boot, and leaves a booted state with right free_pages |
| AddressSpaces.Memory.GetUserPage | src/kernel/memory.c:306-319 | takes the lowest free user frame, or nothing when there is none |
| AddressSpaces.Memory.PutUserPage | src/kernel/memory.c:322-340 | gives one reference back; the frame is free when its count reaches zero |
| AddressSpaces.Memory.GetPte | src/kernel/memory.c:572-596 | finds or makes the page table, clearing a new one, and fails only without memory |
| AddressSpaces.Memory.LinkUserPage | src/kernel/memory.c:598-624 | the in-place update equals the specified linking, which maps the page of that address and no other (MemoryLaw.StepLaw), and keeps the invariant |
| AddressSpaces.Memory.UnlinkUserPage | src/kernel/memory.c:626-650 | the in-place update equals the specified unlinking, which unmaps the page of that address and no other (MemoryLaw.StepLaw); it fails only where put_user_page asserts, or where get_pte finds no frame for a missing page table |
| AddressSpaces.Memory.MmapUserPage | src/kernel/memory.c:816-864 | one page of a mapping: linked, then given its permissions |
| AddressSpaces.Memory.SysExit | src/kernel/task.c:399-420 | frees pages, tables and directory, or stops exactly where an assert of put_user_page does |
| AddressSpaces.Memory.FreePte | src/kernel/memory.c:432-464 | the two loops free exactly what the specification frees |
| AddressSpaces.Memory.FreeTable | src/kernel/memory.c:448-463 | the inner loop and the release of the table advance the specification by one directory entry |
| AddressSpaces.Memory.CopyTable | src/kernel/memory.c:380-404 | one table of copy_pte, or failure exactly when memory is out |
| AddressSpaces.Memory.ProtectAndCount | src/kernel/memory.c:389-402 | each present entry is write-protected unless shared, and each page counted once more; the assert on the count holds |
| AddressSpaces.Memory.CopyPte | src/kernel/memory.c:363-411 | the loop over the directory, starting from a copy of the parent directory, equals the specified fork |
| AddressSpaces.Memory.PageFaultAt | src/kernel/memory.c:665-775 | serves, kills or panics exactly as specified for a read or a write |
| AddressSpaces.Memory.ResolveCopy | src/kernel/memory.c:728-745 | with one user the page becomes writable, with two it is copied, with more it panics |
| AddressSpaces.Memory.CopyOut | src/kernel/memory.c:733-744 | the count goes down first, then the page is copied into the frame found |
| AddressSpaces.Memory.UserStore | src/kernel/memory.c:703-748 | the access, the fault it takes, and the access again come to the specified store, which changes the word at that address alone (MemoryLaw.StepLaw) |
| AddressSpaces.Memory.UserLoad | src/kernel/memory.c:752-766 | the read, with the fault it takes, delivers the specified word, the one last stored at that address (MemoryLaw.LastStoreIsLoaded) |
| BlockCache.CacheTransparent | src/kernel/cache.c:112-188 | over any run of bread, modification, bwrite and brelse, with evictions and reuse, every read delivers the last contents written, and a block nobody holds has them on disk |
| BlockCache.UnheldIsOnDisk | src/kernel/cache.c:165-188 | a block without a holder is on disk as last written |
| BlockCache.StepOk | src/kernel/cache.c:112-188 | one client step changes the contents of the block written and of no other, and a read delivers the contents |
| BlockCache.GetblkOk | src/kernel/cache.c:112-127 | getblk returns the one buffer of its block with a reference, changes no contents, touches no other buffer in use, and fails exactly when every buffer is held by other blocks |
| BlockCache.CountsAreReferences | src/kernel/cache.c:112-188 | over any run the count of every buffer is the number of times bread has given out its block less the number of times brelse has taken it back; a block with a reference outstanding has a buffer, and that is on the free list exactly when there is none |
| BlockCache.StepCounts | src/kernel/cache.c:112-188 | bread adds one to the count of its block alone, brelse takes one off, changing and bwrite leave every count, and a buffer in use stays with its block |
| BlockCache.GetblkCounts | src/kernel/cache.c:90-127 | a hit adds one to the count, also from zero; a miss takes a new buffer or one that nobody held, with count one; no other buffer changes |
| BlockCache.NewBufferOk | src/kernel/cache.c:73-88 | while there is room a miss takes a new buffer behind those made so far, and evicts none |
| BlockCache.GetblkHitOk | src/kernel/cache.c:29-50 | a hit takes the buffer off the free list and keeps the invariant |
| BlockCache.EvictOk | src/kernel/cache.c:90-109 | the buffer taken from the free list is the last one, was held by nobody, and is rehashed under its new block |
| BlockCache.BreadOk | src/kernel/cache.c:130-151 | bread delivers the contents of the block asked for, and changes none |
| BlockCache.FillOk | src/kernel/cache.c:130-151 | filling a buffer gives it the contents of its block |
| BlockCache.ModifyOk | src/kernel/cache.c:112-188 | changing a held buffer changes the contents of its block and of no other |
| BlockCache.BwriteOk | src/kernel/cache.c:154-162 | after bwrite the buffer is clean, the disk holds the contents of its block, no contents have changed, and every count and the free list are as before |
| BlockCache.BrelseOk | src/kernel/cache.c:165-188 | brelse writes a dirty buffer out before the last reference goes, and changes no contents |
| BlockCache.FindFinds | src/kernel/cache.c:29-50 | the walk along the chain of a block finds its buffer |
| BlockCache.FindMisses | src/kernel/cache.c:29-50 | where the walk finds nothing no buffer holds the block |
| BlockCache.StepKeepsLru | src/kernel/cache.c:90-109 | the free list stays ordered by the time of release |
| BlockCache.EvictsLeastRecentlyReleased | src/kernel/cache.c:90-109 | in every reachable state the buffer to be evicted has count zero, which is to say no reference outstanding (BlockCache.CountsAreReferences), and no such buffer was released before it |
| BlockCache.WakingKeepsUniqueIff | src/kernel/cache.c:107-125 | what getblk does after sleeping keeps one buffer per block if and only if no other buffer has come to hold the block meanwhile |
| BlockCache.TwoSleepersDuplicate | src/kernel/cache.c:107-125 | two sleepers for the same absent block end up with two buffers for it |
| CacheManager.Manager.constructor | src/kernel/cache.c:190-198 | an empty cache stands for the disk as it is |
| CacheManager.Manager.GetFromHashTable | src/kernel/cache.c:29-50 | walks the chain; a buffer found leaves the free list |
| CacheManager.Manager.GetFreeCache | src/kernel/cache.c:90-109 | a new buffer, else the one released longest ago, else it would sleep |
| CacheManager.Manager.HashRemove | src/kernel/cache.c:61-66 | takes the buffer out of the chain of its block |
| CacheManager.Manager.HashLocate | src/kernel/cache.c:53-58 | puts the buffer at the front of the chain of its block |
| CacheManager.Manager.GetMissingBlock | src/kernel/cache.c:119-126 | a buffer for a block that is not cached |
| CacheManager.Manager.GetBlock | src/kernel/cache.c:112-127 | getblk, in place |
| CacheManager.Manager.ReadBlock | src/kernel/cache.c:130-151 | bread, in place |
| CacheManager.Manager.WriteBlock | src/kernel/cache.c:154-162 | bwrite, in place: the disk gets the data, and the count stays (BlockCache.BwriteOk) |
| CacheManager.Manager.ReleaseBlock | src/kernel/cache.c:165-188 | brelse, in place |
| BlockMap.BmapCreate | src/fs/bmap.c:137-193 | creating a block links one zone to it: later lookups give that zone, every other block of every file keeps its zone and contents, zones stay disjoint, and the one to three zones newly linked are exactly those newly used |
| BlockMap.WalkLinks | src/fs/bmap.c:171-192 | the walk down any path makes each empty slot on it non-empty, keeps every other slot, and uses exactly the zones it links |
| BlockMap.BmapLooks | src/fs/bmap.c:137-193 | without create bmap returns the zone at the end of the path of the block, which is where BlockMap.LookupOnDisk says, and changes nothing |
| BlockMap.LookupOnDisk | src/fs/bmap.c:137-193 | the mapping in bytes of the disk: blocks 0 to 6 are zone words of the inode, 7 to 518 the 16-bit words, low byte first, of the block in zone word 7, and the others the words of the blocks named in the block in zone word 8; a missing block gives zero |
| BlockMap.LinkChangesOneSlotIffClean | src/fs/bmap.c:11-44 | linking a zone changes that slot alone if and only if the zone reads as zeros or is no index block |
| BlockMap.LinkKeepsInv | src/fs/bmap.c:172-177 | a newly linked zone was free, is now used, and is named once |
| BlockMap.DataSlotInjective | src/fs/bmap.c:137-170 | different logical blocks are kept in different places |
| BlockMap.SubtreesDisjoint | src/fs/inode.c:150-167 | two subtrees that do not contain each other share no zone |
| BlockMap.OwnedIsUnder | src/fs/inode.c:169-195 | the zones of a file are those below its nine slots |
| BlockMap.TruncateOk | src/fs/inode.c:169-195 | truncation frees exactly the zones of the file, empties all its slots, and leaves slots and zones of every other file |
| BlockMap.CreatesUsed | src/fs/bmap.c:137-193 | after any sequence of allocations the used zones are the old ones and those of the file |
| BlockMap.TruncateUndoesBmap | src/fs/inode.c:169-195 | truncating undoes any sequence of bmap allocations on the zone bitmap |
| BlockTree.FileSystem.Balloc | src/fs/bmap.c:11-44 | takes the lowest clear bit |
| BlockTree.FileSystem.Bfree | src/fs/bmap.c:47-73 | clears a bit that must be set |
| BlockTree.FileSystem.Reckon | src/fs/bmap.c:171-192 | the loop over level, index and divider is the walk along the path |
| BlockTree.FileSystem.Bmap | src/fs/bmap.c:137-193 | the choice of level, index and divider leads along the path of the block, with the result of the walk; without create that is the zone that BlockMap.LookupOnDisk reads off the disk |
| BlockTree.FileSystem.InodeBfree | src/fs/inode.c:150-167 | frees every zone below the slot, each once: the allocated-bit assert never fails |
| BlockTree.FileSystem.FreeTop | src/fs/inode.c:169-189 | one of the nine slots is freed and emptied |
| BlockTree.FileSystem.InodeTruncate | src/fs/inode.c:169-195 | frees exactly the zones of the file and leaves nine zero slots and size zero |
| BlockTree.ChildrenDisjoint | src/fs/inode.c:157-166 | different entries of an index block share no zone, and none holds the block itself |
| FileIo.WriteRefinesSplice | src/fs/namei.c:384-445 | written at or before its end a file without holes is the same byte string with the bytes put in place |
| FileIo.WriteKeepsOtherFiles | src/fs/namei.c:384-445 | every other file stays the same byte string |
| FileIo.WriteThenRead | src/fs/namei.c:331-445 | the bytes written are the bytes of the file there, and can be read |
| FileIo.FileOnDisk | src/fs/namei.c:348-376 | byte k of a file is byte k mod 1024 of the block that the inode and its index blocks name for k / 1024 |
| FileIo.SeekWriteWholeIff | src/fs/namei.c:350-351 | after a write past the end the file can be read throughout if and only if no whole block is skipped |
| FileIo.RefusedIffTooLong | src/fs/namei.c:389-391 | the 32-bit comparison refuses exactly the writes that reach the limit, unless the sum wraps round to below it |
| FileIo.HugeWritePasses | src/fs/namei.c:389-391 | a length of 4 GiB less one at offset one is not refused, whatever the limit |
| FileIo.ChunkOk | src/fs/namei.c:399-435 | one turn of the loop changes the bytes of its chunk and no byte of any other block |
| FileIo.CanWriteIff | src/fs/namei.c:399-435 | a write has room if and only if its first block can be made over clean index blocks, and what is left has room in the state after that |
| ZoneSupply.GoesIff | src/fs/bmap.c:137-190 | bmap makes a block if and only if there is a free zone for each empty slot on its path, and those that become index blocks read as zeros; it takes that many, lowest first |
| ZoneSupply.RoomIff | src/fs/bmap.c:137-190 | the free zones do for the blocks of a range if and only if they do for the first, and for the others in the state after it has been made and written |
| ZoneSupply.FilledIsRoom | src/fs/namei.c:401-403 | blocks that are there already can be written on a full disk, whatever free zones hold |
| ZoneSupply.DirectIsRoom | src/fs/bmap.c:137-190 | for direct blocks any free zones do, one for each, also unclean ones given back by truncation |
| ZoneSupply.EnoughIsRoom | src/fs/bmap.c:137-190 | as many free zones as empty slots suffice if every free zone reads as zeros or no index block is missing |
| FileIo.InodeRead | src/fs/namei.c:331-382 | returns exactly the bytes from offset to the lesser of offset plus length and the size, EOF at or past the end, and changes nothing on disk |
| FileIo.ReadChunk | src/fs/namei.c:348-376 | one turn copies the bytes of one block |
| FileIo.InodeWrite | src/fs/namei.c:384-445 | EOF and no change where the limit is reached; else, given zones for the empty slots the write meets, the bytes written and nothing else changed |
| FileIo.WriteChunk | src/fs/namei.c:399-435 | one turn extends the bytes written by one chunk, and leaves room for the rest |
| Links.ReachableInv | src/fs/namei.c:447-762 | from a fresh disk, after any run of safe calls, every link count is the number of live entries naming the inode, names are unique, the bitmap bit is set exactly while the count is positive, and each directory has its dots and one home |
| Links.RunKeepsInv | src/fs/namei.c:447-762 | no run of safe calls breaks that |
| Links.CallKeepsInvIff | src/fs/namei.c:259-762 | a call that goes through keeps the tree sound if and only if it is safe: room in the 8-bit count, and the name cut to 13 characters still new |
| Links.CreateKeepsInvIff | src/fs/namei.c:305-314 | creating a file keeps the tree sound if and only if the cut name is not taken |
| Links.LinkKeepsInvIff | src/fs/namei.c:644-698 | linking keeps the tree sound if and only if the count is below 255 and the cut name is not taken |
| Links.MkdirKeepsInvIff | src/fs/namei.c:447-517 | making a directory keeps the tree sound if and only if the count of its parent is below 255 and the cut name is not taken |
| Links.UnlinkKeepsInv | src/fs/namei.c:700-762 | unlinking a file keeps the tree sound, and its assert on the count holds |
| Links.RmdirKeepsInv | src/fs/namei.c:557-642 | removing an empty directory keeps the tree sound; its count is two and that of its parent stays positive, as asserted |
| Links.RmdirSucceedsIffEmpty | src/fs/namei.c:557-642 | in a sound tree rmdir of a name goes through if and only if it names a directory that holds nothing but its dots, has at most 64 entries and is not in use, and the name is not a dot name |
| Links.UnlinkSucceedsIff | src/fs/namei.c:700-755 | in a sound tree unlink of a name goes through if and only if the directory has a live entry of that name and it names no directory, with one link or more |
| Links.AddSucceedsIff | src/fs/namei.c:259-314 | in a sound tree creating and mkdir go through if and only if the parent is a live directory, the name is not empty and no live entry has it; link, if moreover what it links is a file that has links |
| Links.AddingCallNames | src/fs/namei.c:259-698 | after creating, mkdir or link the parent has an entry with the cut name for the new file with one link, the new directory, or the file linked; every other entry names what it did |
| Links.RemovingCallNames | src/fs/namei.c:557-762 | after unlink or rmdir no live entry has the name, the file has one link less or the directory is gone, and every other entry names what it did |
| Links.LooksEmptyIff | src/fs/namei.c:520-555 | is_dir_empty is right if and only if the directory has at most one block of entries: it always reads the first block |
| Links.CountUpTo | src/fs/namei.c:534-547 | the loop counts a longer directory as holding more than two entries |
| Links.LongEmptyDirLooksFull | src/fs/namei.c:538 | an empty directory of 65 entries does not look empty |
| Links.LongNamesCollide | src/fs/namei.c:113-160 | two names equal in their first 13 characters both get an entry, under the same stored name |
| Links.LinkWraps | src/fs/namei.c:688 | the 256th link makes the count zero |
| Links.ShortNameIsFree | src/fs/namei.c:113-160 | a fresh name of at most 13 characters is not taken when stored |
| Links.FormattedInv | src/fs/super.c:309-363 | a freshly made file system is sound |
| Links.EveryDirBelowRoot | src/fs/namei.c:491-501 | every directory leads to the root along its parents |
| Links.UnlinkUndoesLink | src/fs/namei.c:644-762 | unlinking a name just linked restores names, counts and bitmap |
| Links.UnlinkUndoesCreate | src/fs/namei.c:259-762 | unlinking a file just created restores names, counts and bitmap: its inode is free again |
| Links.RmdirUndoesMkdir | src/fs/namei.c:447-642 | removing a directory just made restores names, counts and bitmap |
| Links.UnlinkAssertHolds | src/fs/namei.c:742 | a file that can be unlinked has a positive count |
| Links.Stored | src/lib/string.c:12-22 | an entry keeps at most 13 characters of a name, and the whole name exactly when it is that short |
| Directories.Directory.FindEntry | src/fs/namei.c:63-108 | the first live entry of that name |
| Directories.Directory.AddEntry | src/fs/namei.c:113-160 | the first empty entry, else one more at the end, gets the cut name |
| Directories.Directory.Ialloc | src/fs/bmap.c:76-108 | takes the lowest clear bit of the inode bitmap |
| Directories.Directory.Ifree | src/fs/bmap.c:111-135 | clears a bit that must be set |
| Directories.Directory.IsDirEmpty | src/fs/namei.c:520-555 | the loop with its pointer going back to the first block |
| Directories.Directory.CreateFile | src/fs/namei.c:259-316 | the creating path of inode_open, in place |
| Directories.Directory.MakeDir | src/fs/namei.c:447-517 | sys_mkdir, in place |
| Directories.Directory.RemoveDir | src/fs/namei.c:557-642 | sys_rmdir, in place, with both asserts |
| Directories.Directory.LinkFile | src/fs/namei.c:644-698 | sys_link, in place |
| Directories.Directory.UnlinkFile | src/fs/namei.c:700-762 | sys_unlink, in place, with its assert: it succeeds for every file name that is there (Links.UnlinkSucceedsIff) and fails for a directory or a name that is not |
| AbsPath.AbsolutePath | src/fs/file.c:215-261 | the buffer ends up with the canonical form of the path, or of the current directory joined with it |
| AbsPath.Normalise | src/fs/file.c:237-260 | in the one buffer, the components walked as a stack machine |
| AbsPath.Squeeze | src/fs/file.c:237-254 | the loop ends, every write stays behind what is still to be read and inside the buffer |
| AbsPath.Advance | src/fs/file.c:237-254 | one turn keeps what is written and what is to be walked |
| AbsPath.CopyDown | src/fs/file.c:248-251 | the component is copied behind the written part, with a slash |
| AbsPath.Back | src/fs/file.c:245-246 | the write pointer goes back to the separator before the last component, and not past the root |
| AbsPath.Turn | src/fs/file.c:237-254 | what each branch does to the path still to be walked |
| AbsPath.CanonicalIsFixed | src/fs/file.c:215-261 | the result has only proper components, and a second pass changes nothing |
| AbsPath.UpCancelsDown | src/fs/file.c:243-246 | a name followed by two dots is nothing |
| AbsPath.TrailComponents | src/fs/file.c:247-260 | the written path reads back as the same components |
| ExecImage.StartReadsBack | src/lib/crt.asm:11-26 | for every file name, argv and envp that fit, the start-up code reads back argc, the file name followed by argv, and envp, through pointers inside the image |
| ExecImage.StringsDisjoint | src/kernel/execve.c:190-230 | all strings lie behind the vectors, inside the image, and disjoint |
| ExecImage.VectorReadsBack | src/lib/crt1.c:21 | a vector of pointers ended by NULL reads back as its strings |
| ExecImage.HeaderAt | src/kernel/execve.c:224-234 | each word of the header is where the start-up code looks for it, low byte first |
| ExecImage.StringInImage | src/kernel/execve.c:190-222 | each string is at the address noted for it, with its end mark |
| ExecImage.SetEnv | src/kernel/execve.c:159-255 | the image ends at the top of the user stack, and the rest of the stack memory is untouched |
| ExecImage.PushStrings | src/kernel/execve.c:190-222 | the strings go in last first, and each pointer is noted |
| ExecImage.PushHeader | src/kernel/execve.c:224-236 | vectors and count go below the strings, with room left as asserted |
| Elevator.RunConserves | src/kernel/device.c:156-205 | over any arrivals and completions the queue stays sorted with exactly one active request while it is not empty, and each request that arrived is served once or still waiting |
| Elevator.BatchIsSweep | src/kernel/device.c:128-154 | without arrivals a batch is served once each, in one sweep on and one sweep back |
| Elevator.ArriveKeepsInv | src/kernel/device.c:179-189 | an arrival leaves the active request active and the direction as it is, and sleeps unless the queue was empty |
| Elevator.FinishKeepsInv | src/kernel/device.c:193-204 | when a request ends one other wakes, if there is one, and none is lost; the direction turns exactly when no request is further on in it, so also after the last of a batch |
| Elevator.InsertedSorted | src/lib/list.c:101-118 | insertion keeps the queue sorted |
| Elevator.QueuedBehindEquals | src/lib/list.c:101-118 | a request goes behind those for the same sector and lower ones, and before all higher ones |
| Elevator.SweepStep | src/kernel/device.c:128-154 | the sweep goes on from the request that request_nextreq chooses |
| Elevator.Device.constructor | src/kernel/device.c:107-109 | an empty queue, moving up |
| Elevator.Device.InsertSort | src/lib/list.c:101-118 | the loop finds the first larger sector |
| Elevator.Device.Enter | src/kernel/device.c:170-189 | enters the queue; sleeps exactly when it was not empty |
| Elevator.Device.NextRequest | src/kernel/device.c:128-154 | the next request in the current direction, turning at the ends |
| Elevator.Device.Leave | src/kernel/device.c:193-204 | leaves the queue and wakes the next request |
| RwLock.LockIsSafe | src/lib/mutex.c:70-135 | for any number of threads and any interleaving of the atomic instructions a thread in the place of a writer is alone, and readers counts the threads between increment and decrement; who comes to that place is RwLock.CallersExclude |
| RwLock.CallersExclude | src/lib/mutex.c:70-135 | over any run a thread in its section is there for what it last asked for, to read or to write, and one that asked to write is there with no other thread, reader or writer |
| RwLock.AlwaysAsksTheSame | src/lib/mutex.c:70-135 | a thread that only ever asks to write is never where readers are, and one that only asks to read never where writers are |
| RwLock.WriterComesAndGoes | src/lib/mutex.c:109-135 | a writer at a free lock is in its section after two instructions and leaves the lock free after a third |
| RwLock.ReaderComesAndGoes | src/lib/mutex.c:70-107 | a reader that meets no writer is in its section after three instructions, next to other readers, and leaves the lock as it was after a fourth |
| RwLock.NoNewReaders | src/lib/mutex.c:109-135 | once a writer holds the flag no new reader enters before it unlocks, and the count only falls |
| RwLock.WriterIsAlone | src/lib/mutex.c:109-129 | mutual exclusion in every state of the invariant |
| RwLock.StepKeepsInv | src/lib/mutex.c:70-135 | every instruction of every thread keeps the invariant, and no counter wraps |
| RwLock.RunKeepsInv | src/lib/mutex.c:70-135 | no interleaving breaks it |
| RwLock.NothingStuck | src/lib/mutex.c:109-135 | a waiting writer enters exactly when no reader is left, a held flag has a holder, and an idle lock is free |
| RwLock.Lock.constructor | src/lib/mutex.c:60-63 | a free lock |
| RwLock.Lock.CompareExchange | src/lib/mutex.c:70-88 | the flag is taken exactly when it was clear; then a thread that asked to write waits for the readers to leave, and one that asked to read goes on to count itself; else nothing changes |
| RwLock.Lock.CountReader | src/lib/mutex.c:89-94 | one reader more |
| RwLock.Lock.ReleaseFlag | src/lib/mutex.c:95-99 | the reader lets go of the flag |
| RwLock.Lock.ReadUnlock | src/lib/mutex.c:101-107 | one reader less |
| RwLock.Lock.AwaitReaders | src/lib/mutex.c:128 | the writer enters when no reader is left, and is then alone |
| RwLock.Lock.WriteUnlock | src/lib/mutex.c:131-135 | the flag is clear |
| Pipes.PipeIsFaithful | src/fs/pipe.c:9-47 | over every run what was read is a prefix of what was written with the rest in the ring, a blocked reader means an empty ring, a blocked writer a full one, and both are never blocked |
| Pipes.ReadsGetWhatTheyAsk | src/fs/pipe.c:9-26 | over any run what has been read and what reads still want is together all that reads asked for: a read ends exactly when it has got its bytes |
| Pipes.StepKeepsInv | src/fs/pipe.c:9-47 | every turn of either loop keeps that |
| Pipes.NothingOverwritten | src/lib/kfifo.c:29-35 | the writer never makes kfifo_put drop a byte |
| Pipes.NeverBothBlocked | src/fs/pipe.c:9-47 | one of the two can go on, and the asserts on the waiter fields hold |
| Pipes.DrainEnds | src/fs/pipe.c:9-47 | a read of as many bytes as are offered and the write both end, with every byte delivered in order |
| Pipes.PipeInode.constructor | src/fs/inode.c:215-229 | an empty pipe |
| Pipes.PipeInode.ReadTurn | src/fs/pipe.c:12-25 | one turn of the loop of pipe_read over the ring |
| Pipes.PipeInode.WriteTurn | src/fs/pipe.c:32-45 | one turn of the loop of pipe_write over the ring |
| Kfifo.FullIff | src/lib/kfifo.c:14-16 | full means one byte less than the buffer is long |
| Kfifo.GetBytes | src/lib/kfifo.c:22-27 | moving the tail drops the oldest byte |
| Kfifo.PutBytes | src/lib/kfifo.c:29-35 | moving the head appends a byte |
| Kfifo.Ring.constructor | src/lib/kfifo.c:7-12 | an empty ring |
| Kfifo.Ring.Full | src/lib/kfifo.c:14-16 | whether the ring is full |
| Kfifo.Ring.Empty | src/lib/kfifo.c:18-20 | whether the ring is empty |
| Kfifo.Ring.Get | src/lib/kfifo.c:22-27 | the oldest byte; zero and no change where there is none |
| Kfifo.Ring.Put | src/lib/kfifo.c:29-35 | appends a byte; a full ring loses its oldest first |
| Processes.TreeIsSafe | src/kernel/task.c:266-478 | after any run of forks, exits and reapings, with slots used again, every process but the first two has a living parent and descends from init |
| Processes.RunKeepsInv | src/kernel/task.c:266-478 | no run breaks the tree |
| Processes.ForkKeepsInv | src/kernel/task.c:300-320 | a child in a free slot, ready, with its caller as parent, fits into the tree, and no other process changes |
| Processes.ExitKeepsInv | src/kernel/task.c:463-478 | children of a process that ends, dead ones too, pass to its parent |
| Processes.ReapKeepsInv | src/kernel/task.c:293-297 | the slot of a dead process is empty afterwards and can be used again, and no other process changes |
| Processes.DeadHasNoChildren | src/kernel/task.c:463-471 | a dead process has no children |
| Processes.FatherIsThere | src/kernel/task.c:381-397 | the panic of task_tell_father cannot be reached |
| Processes.ExitWakesIff | src/kernel/task.c:463-476 | a sleeping waiter is woken by the exit of exactly the pid it asked for, unless that is its own parent: one that asked for any child sleeps on |
| Processes.ExitTells | src/kernel/task.c:381-476 | the end of a process signals its parent and nobody else, makes ready a sleeper that waits for its pid, and leaves the state of every other process |
| Processes.ExitTree | src/kernel/task.c:399-478 | where every process stands after an exit |
| Processes.BootedInv | src/kernel/task.c:232-244 | idle and init alone are a sound table |
| Processes.ProcessTable.constructor | src/kernel/task.c:232-244 | the table after boot |
| Processes.ProcessTable.GetFreeTask | src/kernel/task.c:51-61 | the lowest free slot |
| Processes.ProcessTable.SysFork | src/kernel/task.c:300-320 | a copy of the caller in the free slot |
| Processes.ProcessTable.TellFather | src/kernel/task.c:381-397 | the search finds the parent and signals it |
| Processes.ProcessTable.SysExit | src/kernel/task.c:399-478 | the loop over the table passes on children and wakes waiters |
| Processes.ProcessTable.WaitTurn | src/kernel/task.c:270-297 | the first child decides: reaped if dead, else the caller sleeps; none, and the call fails |
| Scheduler.BoundedWaiting | src/kernel/task.c:72-85 | a process that stays ready and is not the current one is chosen within TASK_NR less one calls of schedule, whatever happens in between |
| Scheduler.ChosenWithin | src/kernel/task.c:72-85 | within as many calls as its distance in the circle |
| Scheduler.PickIsNearest | src/kernel/task.c:72-85 | the one chosen is the nearest eligible one in the circle |
| Scheduler.PickInOrder | src/kernel/task.c:72-85 | in numbers: the lowest eligible process above the current one is chosen, and where there is none above it, the lowest of all |
| Scheduler.IdleIff | src/kernel/task.c:72-85 | idle is chosen if and only if no other process is eligible |
| Scheduler.ScheduleKeepsInv | src/kernel/schedule.c:55-63 | the one chosen is ready when it is switched to, as asserted, and one process runs at a time |
| Scheduler.ScheduleKeepsOthers | src/kernel/schedule.c:55-63 | a running process that is preempted is ready, and unless it is idle can be chosen again; one that went to sleep stays asleep; all others, and everybody's ticks, are as before |
| Scheduler.SliceLasts | src/kernel/clock.c:60-69 | the ticks of the running process last for that many interrupts, then it has as many as its priority says, and no other process loses any |
| Scheduler.TickKeepsInv | src/kernel/clock.c:60-69 | ticks stay at least one after each clock interrupt |
| Scheduler.TaskList.Choose | src/kernel/task.c:72-84 | the loop chooses as specified |
| Scheduler.TaskList.Schedule | src/kernel/task.c:72-85 | chooses and switches |
| Scheduler.TaskList.SwitchTo | src/kernel/schedule.c:55-63 | the running process becomes ready, the chosen one runs |
| Scheduler.TaskList.ClockTick | src/kernel/clock.c:60-69 | counts ticks down, and schedules when they are used up |
| Bitmaps.MaskBits | src/lib/bitmap.c:38-59 | setting or clearing one bit of a byte leaves the other seven |
| Bitmaps.BitsAreDigits | src/lib/bitmap.c:19-35 | bit i is the binary digit of weight 2^(i mod 8) in byte i / 8 |
| Bitmaps.Bitmap.constructor | src/lib/bitmap.c:13-16 | all bits clear |
| Bitmaps.Bitmap.Test | src/lib/bitmap.c:19-35 | the bit at that index |
| Bitmaps.Bitmap.Set | src/lib/bitmap.c:38-59 | that bit and no other is changed |
| Bitmaps.Bitmap.FindRun | src/lib/bitmap.c:62-91 | the loop finds the lowest run of clear bits, and fails only when there is none |
| Bitmaps.Bitmap.Scan | src/lib/bitmap.c:62-102 | takes exactly the lowest run of clear bits, and fails only when there is none |
| KernelPages.RunIsSound | src/kernel/memory.c:246-286 | over any run of allocations and releases a bit is set exactly while its count is not zero, free_pages is right, and live runs never overlap |
| KernelPages.TakeKeepsInv | src/kernel/memory.c:246-264 | taking a clear run meets only pages with count zero, as asserted |
| KernelPages.GiveKeepsInv | src/kernel/memory.c:267-286 | giving pages back keeps bits and counts in step |
| KernelPages.GiveUndoesTake | src/kernel/memory.c:246-286 | release undoes allocation exactly |
| KernelPages.Allocator.constructor | src/kernel/memory.c:144-168 | bits and counts of the pages in use at boot agree |
| KernelPages.Allocator.AllocPages | src/kernel/memory.c:246-264 | allocates the lowest free run, in bitmap and counts, in place |
| KernelPages.Allocator.ResetPages | src/kernel/memory.c:267-286 | each count goes down, and a page is free when its count is zero |
| IntrusiveLists.List.constructor | src/lib/list.c:6-11 | an empty list |
| IntrusiveLists.LinkBefore | src/lib/list.c:14-20 | a node goes in before its anchor and the chain stays whole |
| IntrusiveLists.LinkAfter | src/lib/list.c:23-29 | a node goes in behind its anchor and the chain stays whole |
| IntrusiveLists.Unlink | src/lib/list.c:75-83 | a node goes out and the chain stays whole |
| IntrusiveLists.List.Push | src/lib/list.c:32-35 | the node becomes the first |
| IntrusiveLists.List.PushBack | src/lib/list.c:48-51 | the node becomes the last |
| IntrusiveLists.List.Pop | src/lib/list.c:38-45 | the first node |
| IntrusiveLists.List.PopBack | src/lib/list.c:54-61 | the last node |
| IntrusiveLists.List.Search | src/lib/list.c:64-72 | whether the node is in the list |
| IntrusiveLists.List.Remove | src/lib/list.c:75-83 | the list without the node, in the same order |
| IntrusiveLists.List.Empty | src/lib/list.c:86-88 | whether the list is empty |
| IntrusiveLists.List.Size | src/lib/list.c:91-99 | the number of nodes |
| IntrusiveLists.List.InsertSort | src/lib/list.c:101-118 | the node goes before the first one with a larger key |
| IntrusiveLists.InsertSortKeepsOrder | src/lib/list.c:101-118 | an ascending list stays ascending |
| Lists.WithoutMembers | src/lib/list.c:75-83 | removal takes out that element and no other |

## Left out

Kernel mechanics that the results do not depend on:

- kmap, kunmap and the TLB: frames are read and written directly.
- System calls that copy into user buffers: only the single write through an entry is stated, by EagerCopy.KernelWriteSimulatesIff; runs consist of user loads and stores.
- Boot, descriptor tables, port I/O, inline assembly, device drivers: hardware without algorithmic content. A disk transfer is one step.
- kmalloc and kfree: allocation is abstract. Where kmalloc takes pages, also inside fork, that is a KernelTakes step of its own.
- execve's release of the old program: no step of the runs; it is free_pte, as at the beginning of exit.
- ELF loading, mounting, file mappings, terminals, signals, timestamps, permissions, umask.

Choices of the models:

- SystemRuns.CowInvisible: a run ends where the kernel stops, because nothing goes on after a panic; an unsafe mapping is not part of runs, its effect is stated by VmRuns.MmapKeepsInvIffSafe and VmRuns.UnsafeMmapShowsIff.
- SystemRuns.ForkTaskStopsIff: fork and exit as wholes are on values, because their parts in place are those of AddressSpaces.Memory and KernelPages.Allocator, which keep the one table in two objects; the contents of kernel pages are not modelled.
- AddressSpaces.Memory.MmapUserPage: mapping is page by page and without a file, because the rest of sys_mmap searches a bitmap and reads blocks.
- CacheManager.Manager.GetBlock: returns nothing where the source sleeps for a buffer, because a sleep ends in another process's step.
- BlockTree.FileSystem.Bmap: a free zone must be there for each one needed, because the source leaves the full disk open (src/fs/bmap.c:38-40).
- FileIo.InodeWrite: asks for zones and for clean index blocks as bmap needs them, because the source leaves the full disk open and does not clear zones; the file size limit is a parameter, and a sum that wraps below it is excluded.
- FileIo.InodeRead: asks that the blocks it comes to are there, which the source asserts.
- Directories.Directory.RemoveDir: whether another process uses the directory is a parameter.
- Links.ReachableInv: path resolution is a parameter, the directory found and the last component; a single file system is mounted. Runs consist of safe calls.
- BlockTree.FileSystem.InodeTruncate: the test that the inode is a file or a directory is left to the caller.
- Directories.Directory.CreateFile: a free inode must be there, because the source leaves a full inode bitmap open (src/fs/bmap.c:102-104).
- ExecImage.SetEnv: the arguments must fit the kernel's buffers, because the source writes before it asserts; vectors are given as sequences.
- AbsPath.AbsolutePath: the current directory is given as its string; sys_chdir, which stores it without an end mark, is not modelled.
- Elevator.Device.Enter: a request is served in one step, between entering and leaving the queue.
- RwLock.Lock.CompareExchange: one try of the retry loop, because spinning need not end.
- Pipes.PipeInode.ReadTurn: one turn of the loop, because a blocked call ends in another process's step; one reader and one writer.
- Processes.ProcessTable.WaitTurn: the pid asked for does not choose the child, as in the source; only the wake-up looks at it.
- Processes.ProcessTable.GetFreeTask: a free slot must be there; the source panics otherwise.
- Scheduler.BoundedWaiting: the process is taken to keep its ticks; Scheduler.TickKeepsInv shows that for priorities of at least one.
- Bitmaps.Bitmap.Scan: asks for at least one bit, as all its callers do.
- BlockCache: buffers come from one pool with a fixed capacity, in place of the page that new headers grow into.
