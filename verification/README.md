# xv6 in Dafny

A verification project for the xv6 teaching kernel (the `xv6/` tree, with its stride scheduler) and for the first-fit
heap of `p3/mem.c`.  Each part models the code as it is, step by step where the code changes state, and proves what the
part is for.  `dafny verify dfyconfig.toml` checks everything.

| part | modules |
|---|---|
| file system blocks and files | `DiskFormat` (bytes, words, bits), `FsLayout` (inodes, slots, the invariant), `FsOwnership` (giving and taking a block), `FsFiles` (writing), `FsTruncate`, `FileSystem` (the code, on a disk of blocks), `FsImage` (what mkfs lays out), `FsTheorems` |
| directories and link counts | `Directories` (the tree and what each call does to it), `DirOps` (the code, on lists of entries), `FsDirectory` (dirlookup and dirlink on blocks, with the same results) |
| buffer cache and disk queue | `BufferCache` (the protocol of processes, disk and interrupt), `BufferRing` (the two linked lists) |
| stride scheduler, process life cycle | `ProcTable` (the code on the process table), `StrideScheduling`, `LifeCycle` |
| physical pages and address spaces | `Paging`, `VirtualMemory` |
| K&R allocator | `KRMalloc` |
| first-fit heap | `FirstFit` |
| pipes | `Pipe` |
| shell parser | `ShellGrammar` (the grammar as functions, the printer), `ShellRoundTrip`, `ShellTexts` (what plain texts parse to, character by character), `Shell` (the cursor and the buffer) |
| pattern matcher of grep | `Regex` |
| shared | `Basics` |

How the code is modelled:

- Code that changes fields or arrays in place is a class with those fields (`FileSys` and `Inode`, `PTable`, `Bcache`,
  `Heap`, `Machine`, `Ring`, `Parser`, `FileTree`); its loops keep their order and their tests.  Each method is proved
  against a specification, and the properties are lemmas about that.
- Regions under a lock are one step.  Where several processes meet (`BufferCache`, `LifeCycle`, `Pipe`), a state machine
  has one event per region, and the results are about all runs, hence all interleavings.
- A panic is an outcome (`Stop`, `Panic`, `false`) with its exact condition, or a precondition when the caller has to
  rule it out.  Where the code goes on outside what it owns, that is an outcome with its exact condition too, and the
  model ends there: `Outside` and `Lost` for a block past the end of the file system, `NoBlock` for either end of a
  directory write, `granted` for memory that `sbrk` has not added.
- Integer widths are written out where they matter: 32-bit wrap-around in `readi`, `writei`, `malloc` and the pipe
  counters, `long` in the passes.
- Disk contents, what `sbrk` grants, whether `kalloc` succeeds in `allocproc`, and what path lookup yields in the
  directory calls are parameters.

Where a promise is not kept by the code, the code is modelled as it is, with the input or the exact condition:

- `balloc` returns a block past the end of the disk when all blocks are owned and a bit behind theirs is clear.
- `setupkvm` loses every free frame when it fails.
- A wakeup or a kill may break the spread that fairness rests on.
- A killed pipe writer may strand a sleeping reader.
- A name put into a removed directory breaks link counts.
- The size computation of `malloc` wraps for requests near 4 GB, and from about 2 GB `sbrk` answers without adding memory.
- A failed disk read leaves a buffer marked valid.
- ">>" in the shell is ">".
- `xv6/README:9` gives LCM as 2^31 - 1; the code has 3603600 (`xv6/kernel/defs.h:184`), which the model follows.
- `Mem_Alloc` returns the address of the block's header (`p3/mem.c:160` and `p3/mem.c:190`), not of the first byte after
  it as its comment says; the model does the same.

## Model

| member | source | states |
|---|---|---|
| `FileSystem.FileSys.Balloc` | xv6/kernel/fs.c:53-76 | balloc takes the lowest clear bit of the whole bitmap, also of bits past the last block, and sets that bit only; it panics exactly when no bit is clear; in bytes: every byte below is 255, the low bits of the byte found are all ones and the next is 0, and that byte grows by the bit's weight |
| `FsTheorems.BallocPastTheEnd` | xv6/kernel/fs.c:62-70 | an input on which balloc hands out a block past the end of the disk: all 1024 blocks used, bit 1024 clear |
| `FsTheorems.BallocInside` | xv6/kernel/fs.c:62-70 | the block balloc finds lies inside the disk if and only if some block inside the disk is free |
| `FileSystem.FileSys.NewBlock` | xv6/kernel/fs.c:53-76 | under the bitmap invariant: while a data block is free, balloc gives one that no file names; when all are owned it panics if and only if the bitmap blocks have no clear bit left, and otherwise hands out a block past the end, which the code takes for any other |
| `FileSystem.FirstClear` | xv6/kernel/fs.c:64-72 | the scan of one bitmap block stops at its lowest clear bit, or at the end when there is none: it passes a bit only when the byte divided by the weight 1, 2, 4, .., 128 of its place is odd, and stops where that is even |
| `FileSystem.FileSys.Bfree` | xv6/kernel/fs.c:79-97 | bfree zeroes the block and takes its weight, 1, 2, 4, .., 128 by its place, off one byte of the bitmap; the "freeing free block" panic happens exactly when the bit was clear |
| `FsLayout.SetUsedEffect` | xv6/kernel/fs.c:65-68 | setting or clearing one block's bit changes no other block's bit and only its bitmap block |
| `FsLayout.UsedIs` | xv6/kernel/fs.c:62-67 | which bit of which byte of which block stands for a block, in plain numbers |
| `FsLayout.SetUsedIs` | xv6/kernel/fs.c:65-95 | marking a clear bit adds 1, 2, 4, .., or 128 to one byte, clearing a set one subtracts it, and no other byte of the disk changes |
| `FsLayout.SuperBytes` | xv6/kernel/fs.c:27-36 | the size of the file system is bytes 0 to 3 of the superblock and the number of inodes bytes 8 to 11, low byte first |
| `DiskFormat.TestWithBit` | xv6/kernel/fs.c:65-67 | a bit set or cleared by mask reads back so, and the other bits of the byte are as they were |
| `FsLayout.DecodeStoreInode` | xv6/kernel/fs.c:171-187 | an inode stored by iupdate decodes to itself, and every other inode, also in the same block, decodes as before |
| `FsLayout.InodeBytes` | xv6/kernel/fs.c:171-187 | the 64 bytes of a stored inode, one by one: type, major, minor, links, size and the 13 addresses, each little-endian at its offset, and no byte elsewhere changes |
| `FsLayout.FileByte` | xv6/kernel/fs.c:319-347 | byte o of a file is byte o % 512 of the block its direct entry o / 512 names, or from 12 * 512 on the block named by that entry of the indirect block |
| `FileSystem.FileSys.Iupdate` | xv6/kernel/fs.c:171-187 | iupdate stores the in-memory inode in its place on disk and changes nothing else |
| `FsOwnership.TakeBlock` | xv6/kernel/fs.c:325-343 | giving a free block to an empty slot keeps the ownership invariant: each owned block in exactly one slot, bits matching, free blocks zero |
| `FsOwnership.ReleaseBlock` | xv6/kernel/fs.c:359-375 | freeing the block of a slot and emptying the slot keeps the ownership invariant |
| `FileSystem.FileSys.Bmap` | xv6/kernel/fs.c:319-347 | bmap returns the block of the given index, allocating it and the indirect block where missing, and keeps the ownership invariant, if and only if as many blocks are left as it needs; otherwise it panics or makes the inode name a block past the end, by whether a bit past the end is clear |
| `FsOwnership.OtherContents` | xv6/kernel/fs.c:319-347 | an operation that keeps the slots and blocks of other inodes keeps their contents byte for byte |
| `FsFiles.Step` | xv6/kernel/fs.c:438-444 | one turn of writei's loop, on any block boundary, overlays exactly its bytes on the file and leaves all other files alone |
| `FileSystem.FileSys.WriteChunk` | xv6/kernel/fs.c:438-444 | a turn of the loop overlays its bytes and keeps every other inode if and only if the blocks it needs are there; the two ways it ends otherwise have their condition |
| `FileSystem.FileSys.Writei` | xv6/kernel/fs.c:420-451 | writei is byte-array update for every offset and length: refused past the end or on wrap, clipped at the largest file size, new contents the old with the stored bytes laid over, every other inode and its contents unchanged, blocks accounted for, if and only if the blocks the longer file needs are there; otherwise it panics if and only if no bit past the end of the disk is clear, and goes on with a block past the end if one is |
| `FileSystem.FileSys.Readi` | xv6/kernel/fs.c:393-418 | readi returns exactly the requested range of the file's bytes, clipped at its size; it allocates nothing and never panics |
| `FsTheorems.WriteThenRead` | xv6/kernel/fs.c:393-451 | after a successful writei a readi of any range returns the updated array, across direct and indirect blocks |
| `FileSystem.FileSys.Itrunc` | xv6/kernel/fs.c:349-380 | itrunc empties the file, clears exactly the bits of its blocks, keeps all other files, and does not reach the "freeing free block" panic, whose answer every loop checks |
| `FsTruncate.BehindFree` | xv6/kernel/fs.c:367-372 | itrunc's loop over the indirect block keeps the invariant although the block on disk still names freed blocks: it holds of the disk with the cleared entries put in its place |
| `FsTruncate.BitsCleared` | xv6/kernel/fs.c:349-380 | after the owner map has lost one inode's blocks, the bits of exactly those blocks are clear |
| `FileSystem.FileSys.Iput` | xv6/kernel/fs.c:280-300 | the last reference to an inode without links frees its blocks and the inode, and panics if and only if that inode is locked; any other reference changes nothing but the count |
| `FileSystem.FileSys.Ialloc` | xv6/kernel/fs.c:145-168 | ialloc takes the lowest free inode and makes it an empty file; it panics exactly when none is free; other inodes and files are unchanged |
| `FsTheorems.OneSlotPerBlock` | xv6/kernel/fs.c:319-380 | a data block's bit is set if and only if an inode slot or indirect slot names it, then exactly one does; a block with a clear bit is all zeros |
| `FsTheorems.BlocksConserved` | xv6/kernel/fs.c:319-380 | the number of blocks in use is the sum of what all file sizes call for, indirect blocks included |
| `FsTheorems.TightSlotCount` | xv6/kernel/fs.c:319-347 | the slots a file of a given size uses, in closed form |
| `FsImage.ImageIsSound` | xv6/tools/mkfs.c:67-95 | the empty image that mkfs lays out, of any size and number of inodes, satisfies the file system invariant, so operations have a state to start from; its bitmap marks exactly the metadata blocks |
| `FsImage.ImageIsValid` | xv6/tools/mkfs.c:67-95 | a kernel that mounts this image is in a valid state, which every operation keeps |
| `FsDirectory.DirLookup` | xv6/kernel/fs.c:464-493 | dirlookup on the blocks, which it scans past the end of the directory, finds the first of the directory's entries with the name, or that there is none: what lies behind the end is zero |
| `FsDirectory.DirLink` | xv6/kernel/fs.c:495-523 | dirlink on the blocks leaves a file whose entries are those before with the new one in the first empty slot or at the end, refuses a name that is there, and fails for want of room or blocks, each exactly when the operation on lists of entries does |
| `FsDirectory.EntriesPut` | xv6/kernel/fs.c:514-519 | 16 bytes written over a directory file at an entry, or at its end, are one entry put in and all others left |
| `FsDirectory.EntryIs` | xv6/include/fs.h:48-53 | the 16 bytes of an entry are the inode number, low byte first, and up to 14 characters ended by a NUL if there are fewer |
| `FsDirectory.Namecmp` | xv6/kernel/string.c:54-62 | strncmp over 14 bytes finds equal exactly the name cut at 14 characters and the name in the entry, with or without a NUL |
| `BufferCache.StepKeepsInv` | xv6/kernel/bio.c:61-137 | every atomic step of any process, the disk or the interrupt keeps the cache invariant: one buffer per real sector, one holder per busy buffer, queued requests distinct and busy, the disk at work on the queue head, valid unchanged buffers equal to the disk, every sleeper on a list somebody will wake |
| `BufferCache.RunsKeepInv` | xv6/kernel/bio.c:61-137 | the invariant holds after every run from boot, whatever the interleaving |
| `BufferCache.BreadSeesLastBwrite` | xv6/kernel/bio.c:95-115 | in every run, a process that has a buffer back and has not changed it reads in it the data of the last bwrite to that sector by anybody, or the disk's original contents |
| `BufferCache.StepStored` | xv6/kernel/bio.c:107-115 | what is stored for a sector (data on its way to the disk, else the disk) changes only by bwrite, and only for the sector written |
| `BufferCache.InterruptStored` | xv6/kernel/ide.c:91-118 | when ideintr takes a write off the queue its data is already on the disk |
| `BufferCache.ReturnsInAgreement` | xv6/kernel/bio.c:95-115 | when bread or bwrite returns, the caller holds the buffer and buffer and disk agree: a write is on the disk when bwrite returns |
| `BufferCache.HolderAlone` | xv6/kernel/bio.c:8-14 | until its holder releases it a buffer keeps its holder and its sector, and once filled changes only when the holder changes it |
| `BufferCache.GetGivesSector` | xv6/kernel/bio.c:61-93 | bget gives a buffer of the sector asked for, which nobody else holds |
| `BufferCache.GetDecides` | xv6/kernel/bio.c:61-93 | bget's two scans have exactly one outcome; the panic "no buffers" is it only when somebody holds every buffer |
| `BufferCache.SleepersAreAwaited` | xv6/kernel/bio.c:72-78 | no lost wakeup: whoever sleeps in iderw has its request queued, whoever sleeps in bget sleeps on a held buffer |
| `BufferCache.DiskAtWork` | xv6/kernel/ide.c:68-118 | while requests are queued the disk is working on the head or its interrupt is raised |
| `BufferCache.InterruptServes` | xv6/kernel/ide.c:91-118 | the interrupt completes the head request and wakes everyone asleep on that buffer |
| `BufferCache.FirstComeFirstServed` | xv6/kernel/ide.c:137-145 | requests are served in queue order: one behind k others reaches the head after exactly k interrupts |
| `BufferCache.NoPanic` | xv6/kernel/ide.c:128-131 | the panics of iderw, bwrite and brelse about flags are out of reach |
| `BufferCache.ToFrontKeepsOrder` | xv6/kernel/bio.c:126-131 | moving a released buffer to the front keeps the list a listing of all buffers, each once |
| `BufferCache.ReleaseOrder` | xv6/kernel/bio.c:83-131 | in every run from boot, told by the events alone: of two buffers the one whose last brelse is later stands before the other, and one released before one never released |
| `BufferCache.RecycledIsOldest` | xv6/kernel/bio.c:82-91 | so bget, when it recycles, takes of the buffers nobody holds the one whose last brelse is the earliest |
| `BufferRing.Bcache.constructor` | xv6/kernel/bio.c:39-56 | binit links all buffers into one ring behind the head, last buffer first, all unused |
| `BufferRing.Bcache.FindCached` | xv6/kernel/bio.c:69-80 | the forward scan stops at the first buffer of the sector, or finds that there is none |
| `BufferRing.Bcache.FindFree` | xv6/kernel/bio.c:82-91 | the backward scan stops at the least recently released free buffer, or finds that all are busy |
| `BufferRing.Bcache.Bget` | xv6/kernel/bio.c:61-93 | bget on the real ring has the outcome the protocol allows and claims or recycles exactly that buffer |
| `BufferRing.Bcache.Brelse` | xv6/kernel/bio.c:117-137 | the six pointer assignments take the buffer from its place to the front of the ring and leave the order of all others, and its busy flag is cleared; panic exactly when it was not busy |
| `BufferRing.Unlinked` | xv6/kernel/bio.c:126-127 | two assignments take a buffer out of a doubly linked ring, wherever it stands |
| `BufferRing.Inserted` | xv6/kernel/bio.c:128-131 | four assignments put a buffer right behind the head |
| `BufferRing.Bcache.Iderw` | xv6/kernel/ide.c:123-145 | a request goes to the end of the queue by the pointer walk, the disk is started exactly when it was idle; each panic has its condition |
| `BufferRing.Bcache.Ideintr` | xv6/kernel/ide.c:90-118 | the head leaves the queue with data and flags set, after a failed read with its data as it was, the next request is started, an interrupt with no request changes nothing |
| `BufferRing.BgetStep` | xv6/kernel/bio.c:61-93 | bget on the ring is the protocol's step: the lists in memory show the protocol's next state |
| `BufferRing.FetchStep` | xv6/kernel/bio.c:95-105 | the same for bread's disk request, whose panics do not happen |
| `BufferRing.BwriteStep` | xv6/kernel/bio.c:107-115 | the same for bwrite |
| `BufferRing.BrelseStep` | xv6/kernel/bio.c:117-137 | the same for brelse |
| `BufferRing.IdeintrStep` | xv6/kernel/ide.c:90-118 | the same for ideintr on a disk without errors, and the disk is started on the command of the new head |
| `ProcTable.PTable.GetLproc` | xv6/kernel/proc.c:293-321 | get_lproc finds the first runnable process of least pass, or that none is runnable |
| `ProcTable.PTable.Schedule` | xv6/kernel/proc.c:331-387 | a scheduler turn resets all passes if the pick's pass would overflow, charges it its stride and dispatches it, slot by slot |
| `ProcTable.PTable.TakeLeastPass` | xv6/kernel/proc.c:88-112 | the starvation prevention sets the pass to the least over all other used slots, or leaves it when there is none |
| `ProcTable.PTable.Wakeup1` | xv6/kernel/proc.c:494-538 | wakeup1 makes runnable exactly those asleep on the channel, each with the least pass at its turn |
| `ProcTable.PTable.Exit` | xv6/kernel/proc.c:209-247 | exit wakes the parent, hands the children to init (waking it for zombies) and becomes a zombie, the new state and parent given slot by slot; it panics exactly for init |
| `ProcTable.PTable.WaitScan` | xv6/kernel/proc.c:251-290 | one pass of wait reaps the first zombie child, or fails for want of children or when killed, or sleeps |
| `ProcTable.PTable.Kill` | xv6/kernel/proc.c:552-570 | kill marks the first process with the pid as killed and makes it runnable if it was asleep, and leaves its other fields and every other slot alone; it fails exactly when there is none |
| `ProcTable.PTable.AllocProc` | xv6/kernel/proc.c:33-116 | allocproc sets up the first unused slot with the next pid, 10 tickets, their stride 360360 and the least pass, or, without a stack, leaves the pid in the slot and nothing else changed; with no unused slot it changes nothing |
| `ProcTable.PTable.Settickets` | xv6/kernel/sysproc.c:104-134 | settickets accepts exactly the multiples of ten from 10 to 150, and tickets times stride is then 3603600 |
| `StrideScheduling.StrideExact` | xv6/kernel/defs.h:180-184 | every legal ticket count divides LCM exactly, so tickets times stride is LCM |
| `StrideScheduling.RoundKeepsHealthy` | xv6/kernel/proc.c:331-387 | every turn, with or without a reset, keeps passes in [0, LONG_MAX] and the runnable ones within one largest stride of each other |
| `StrideScheduling.MovesKeepHealthy` | xv6/kernel/sysproc.c:104-134 | any run of turns and settickets calls keeps that range and spread |
| `StrideScheduling.ProportionalShare` | xv6/kernel/proc.c:293-387 | from equal passes, in any run without a reset, (turns_i - 1) * tickets_j <= turns_j * tickets_i for every two runnable processes |
| `StrideScheduling.ShareFromAnywhere` | xv6/kernel/proc.c:293-387 | from any healthy table without a reset, turns differ from the ticket ratio by at most a constant |
| `StrideScheduling.SixteenTurns` | xv6/kernel/proc.c:293-387 | without a reset no competitor gets more than 16 turns while a process waits for one |
| `StrideScheduling.BoundedWait` | xv6/kernel/proc.c:293-387 | with or without resets, a runnable process with m competitors is not passed over for more than 17 m + 1 turns |
| `StrideScheduling.WakeSpread` | xv6/kernel/proc.c:494-538 | a wakeup of all sleepers on a channel keeps the spread if and only if no used slot other than the first of these sleepers, also no sleeper or zombie, has a pass further than one largest stride behind a runnable one |
| `StrideScheduling.WakeBreaksSpread` | xv6/kernel/proc.c:505-535 | a table in which a wakeup breaks the spread |
| `StrideScheduling.KillSpread` | xv6/kernel/proc.c:560-565 | kill keeps the spread if and only if the sleeper's own pass is within one largest stride of every runnable one |
| `StrideScheduling.KillBreaksSpread` | xv6/kernel/proc.c:560-565 | a table in which a kill breaks the spread |
| `StrideScheduling.NewbornSpread` | xv6/kernel/proc.c:81-112 | a new process made runnable with the pass of allocproc keeps the spread if and only if no other used slot is further than one largest stride behind a runnable one |
| `StrideScheduling.ForkSpread` | xv6/kernel/proc.c:172-205 | made runnable later, it keeps the spread if and only if the pass it took is still within one largest stride of every runnable one |
| `LifeCycle.StepKeepsInv` | xv6/kernel/proc.c:209-290 | every step keeps: no process sleeps in wait while it has a zombie child, every process but init has a living parent, kernel stacks and page directories are held once each |
| `LifeCycle.RunsKeepInv` | xv6/kernel/proc.c:172-290 | that invariant holds in every run from boot on any number of CPUs |
| `LifeCycle.RunsKeepPriced` | xv6/kernel/proc.c:331-387 | in every run from boot, with resets, wakeups, kills, forks and exits on any number of CPUs, every pass stays in [0, LONG_MAX] and every process has legal tickets and their stride |
| `LifeCycle.MarkHistory` | xv6/kernel/proc.c:251-290 | in every run a slot is marked as killed exactly when it was marked at the start or has been killed, and has not been reaped since: the mark stays until then, and goes with the process |
| `LifeCycle.RunsKeepMarkedAwake` | xv6/kernel/proc.c:281-287 | in every run from boot a process marked as killed is never asleep in wait |
| `LifeCycle.RunningHistory` | xv6/kernel/proc.c:331-492 | in every run from boot a slot is running exactly when it has been dispatched and has not yielded, slept or exited since |
| `LifeCycle.SleepHistory` | xv6/kernel/proc.c:447-538 | in every run from boot a process sleeps on an address exactly when it has gone to sleep there and neither a wakeup on that address nor a kill of it has come since |
| `LifeCycle.ParentHistory` | xv6/kernel/proc.c:172-247 | in every run from boot a process other than init is the child of the one that forked it until that one exits, and init's from then on, whoever uses that slot later |
| `LifeCycle.ZombieWaitsForParent` | xv6/kernel/proc.c:251-290 | a zombie stays as it is, stack and directory held, until its parent of the moment reaps it and both go back, once |
| `LifeCycle.ExitKeepsParents` | xv6/kernel/proc.c:227-240 | exit leaves no orphan: its children's new parent is init, which is alive |
| `KRMalloc.Heap.Free` | xv6/user/umalloc.c:24-44 | free makes exactly the block's units free, merged with free neighbours, keeps the ring in address order with no two free blocks touching, touches no other allocated block, and leaves freep at the free block right below |
| `KRMalloc.Heap.FindPlace` | xv6/user/umalloc.c:30-32 | the search of free always meets one of its two exit tests, at the free block right below, with a measure that decreases along the ring |
| `KRMalloc.SearchTest` | xv6/user/umalloc.c:30-31 | the two exit tests hold at the free block right below and at no other |
| `KRMalloc.LinkedRing` | xv6/user/umalloc.c:33-43 | the four cases of coalescing leave a ring over the old free units and the block's |
| `KRMalloc.Heap.Morecore` | xv6/user/umalloc.c:46-61 | new memory becomes free; a refusal by sbrk changes nothing; memory is really granted if and only if the number of bytes fits an int |
| `KRMalloc.Heap.Malloc` | xv6/user/umalloc.c:63-90 | malloc terminates, returns NULL if and only if no run of that many units was free and sbrk refused, asks sbrk at most once and only then, and hands out a block of exactly the units computed, disjoint from all others, from the first block along the ring behind freep that is large enough, leaving freep before it; this for every request but those that make sbrk answer with memory it has not granted, whose condition is given |
| `KRMalloc.RoomIsEnough` | xv6/user/umalloc.c:74-75 | n free units in a row exist if and only if one free block has n, because free blocks never touch |
| `KRMalloc.UnitsSuffice` | xv6/user/umalloc.c:69 | the units computed hold the bytes asked for if and only if the rounding does not wrap at 32 bits |
| `KRMalloc.UnitsWrap` | xv6/user/umalloc.c:69 | a request whose rounding wraps |
| `KRMalloc.SbrkArgument` | xv6/user/umalloc.c:46-57 | the argument of sbrk is the number of bytes wanted if and only if that is below 2^31; from there on it is not positive, and the process gets no memory although sbrk does not refuse |
| `KRMalloc.AskedTooMuch` | xv6/user/umalloc.c:69 | the requests that come to that: those from 2^31 - 15 up to where the rounding wraps |
| `KRMalloc.Canonical` | xv6/user/umalloc.c:24-90 | the free list is determined by the set of free units: the order of calls has no say in it |
| `KRMalloc.MallocAccounts` | xv6/user/umalloc.c:46-90 | free units and allocated units together are the units obtained from sbrk, after malloc |
| `KRMalloc.FreeAccounts` | xv6/user/umalloc.c:24-44 | the same after free |
| `KRMalloc.MallocThenFree` | xv6/user/umalloc.c:24-90 | when there is room, freeing what was just allocated restores the list of free blocks |
| `VirtualMemory.Machine.constructor` | xv6/kernel/kalloc.c:22-32 | kinit makes every frame up to PHYSTOP free, once |
| `VirtualMemory.Machine.Kalloc` | xv6/kernel/kalloc.c:59-70 | kalloc pops the free list threaded through the frames, or returns 0 when it is empty |
| `VirtualMemory.Machine.Kfree` | xv6/kernel/kalloc.c:38-54 | kfree pushes the frame; it panics exactly outside the pool's range |
| `VirtualMemory.Machine.WalkPgdir` | xv6/kernel/vm.c:49-72 | walkpgdir finds the page table, or makes an empty one without changing any mapping |
| `VirtualMemory.Machine.MapPages` | xv6/kernel/vm.c:74-98 | mappages maps exactly the range, one to one, and changes no other entry; it fails only when no frame is left; frames and tables are conserved |
| `VirtualMemory.Machine.SetupKvm` | xv6/kernel/vm.c:133-149 | setupkvm succeeds if and only if 13 frames are free; then, entry by entry, exactly the pages from 0xA0 to 0xFFF and from 0xFE000 on are present, each naming its own frame, all closed to user mode, and writable except kernel text; when it fails every free frame is lost |
| `Paging.NewTable` | xv6/kernel/vm.c:62-69 | a new zeroed page table changes no mapping |
| `Paging.NewEntry` | xv6/kernel/vm.c:86-91 | writing one entry changes one page's mapping |
| `VirtualMemory.Machine.AllocUvm` | xv6/kernel/vm.c:226-251 | allocuvm is all or nothing: with enough frames exactly the new pages are mapped, present, writable and open to user mode, to distinct zeroed frames, otherwise mapping and free frames are as before |
| `VirtualMemory.Undone` | xv6/kernel/vm.c:242-246 | undoing a growth that ran out of frames restores the mapping and the set of free frames |
| `VirtualMemory.Machine.DeallocUvm` | xv6/kernel/vm.c:253-278 | deallocuvm unmaps exactly the pages between the sizes and gives exactly their frames back, without reaching the panic of kfree |
| `VirtualMemory.Machine.FreeVm` | xv6/kernel/vm.c:280-295 | freevm gives back exactly the directory, its page tables and its user pages, each once, without reaching the panic of kfree |
| `VirtualMemory.Machine.CopyUvm` | xv6/kernel/vm.c:297-326 | copyuvm gives the child the same contents in frames of its own, disjoint from the parent's, its user entries present, writable and open to user mode and its kernel entries as setupkvm makes them, and leaves the parent alone; it succeeds if and only if 13 frames and one per page are free; when it fails after setupkvm the set of free frames is as before |
| `VirtualMemory.ParentKept` | xv6/kernel/vm.c:297-326 | writing and taking free frames leaves an address space and its contents as they were |
| `ShellRoundTrip.ParsePrint` | xv6/user/sh.c:326-445 | parse after print is the identity: the printer, which puts parentheses only where the grammar needs them, is inverted by parsecmd on every tree with proper words and at most 9 arguments per command, redirection order included |
| `ShellRoundTrip.PrintParse` | xv6/user/sh.c:326-445 | whatever parsecmd accepts is such a tree, and its printed text parses to the same command |
| `ShellRoundTrip.ExecRound` | xv6/user/sh.c:398-445 | a printed simple command or block takes the redirections that follow, the first innermost |
| `ShellRoundTrip.BackRound` | xv6/user/sh.c:343-358 | "&" binds a pipeline at a time and repeats |
| `ShellRoundTrip.AppendIsWrite` | xv6/user/sh.c:383-393 | ">>" parses to the very node of ">" |
| `Shell.Parser.GetToken` | xv6/user/sh.c:264-307 | gettoken on the buffer returns the scanner's token, its exact span and the cursor behind the white space |
| `Shell.Parser.Peek` | xv6/user/sh.c:309-319 | peek skips white space and tells whether the next character is one of those given |
| `Shell.Parser.ParseRedirs` | xv6/user/sh.c:373-396 | parseredirs wraps the command in the redirections read, or panics for a missing file name |
| `Shell.Parser.ParseExec` | xv6/user/sh.c:414-445 | parseexec accepts, builds and consumes what the grammar says, with its panics for symbols and for ten arguments |
| `Shell.Parser.ParseBlock` | xv6/user/sh.c:398-412 | the same for parseblock |
| `Shell.Parser.ParsePipe` | xv6/user/sh.c:360-371 | the same for parsepipe |
| `Shell.Parser.ParseLine` | xv6/user/sh.c:343-358 | the same for parseline |
| `Shell.NulTerminate` | xv6/user/sh.c:447-492 | nulterminate writes NUL at the ends of the words of the tree and nowhere else |
| `Shell.ReadsBack` | xv6/user/sh.c:447-492 | after those writes every argument and file name, read as a C string, is its token: no NUL falls inside a word |
| `Shell.ParseCmd` | xv6/user/sh.c:326-341 | parsecmd panics exactly on a syntax error, and otherwise the command exec and open see in the buffer it leaves is the command typed |
| `Shell.TypePrinted` | xv6/user/sh.c:326-341 | typing the printed text of a command runs that command |
| `ShellTexts.BlankSplits` | xv6/user/sh.c:261-307 | two plain words with any one of blank, tab, carriage return, newline and vertical tab between them are a command of two arguments |
| `ShellTexts.BlanksAreOne` | xv6/user/sh.c:261-445 | any of these five characters may stand for another anywhere in a text, without changing what it parses to |
| `ShellTexts.SymbolSplits` | xv6/user/sh.c:262-445 | what each of the seven symbols makes of two plain words without any white space: redirection in or out, pipe, list, background, parentheses, or a syntax error |
| `ShellTexts.Binding` | xv6/user/sh.c:343-371 | "/" binds tighter than ";" and "&", and both "/" and ";" group to the right |
| `ShellTexts.ArgumentLimit` | xv6/user/sh.c:437-439 | plain words in a row are one command if there are at most nine of them, and otherwise an error |
| `Regex.Match` | xv6/user/grep.c:71-81 | match is sound and complete: 1 if and only if some substring of the text is in the pattern's language, at the start after "^", at the end before "$" |
| `Regex.MatchHere` | xv6/user/grep.c:83-95 | matchhere succeeds if and only if a prefix of the text is in the language |
| `Regex.MatchStar` | xv6/user/grep.c:97-105 | matchstar succeeds if and only if some run of the character and then the rest of the pattern match |
| `Regex.FrontStar` | xv6/user/grep.c:97-105 | a starred item takes any run of fitting characters |
| `Regex.ShowParse` | xv6/user/grep.c:86-92 | reading a pattern into items loses nothing |
| `Regex.OrdinaryMatch` | xv6/user/grep.c:71-95 | a pattern of ordinary characters matches where it occurs in the text, with "^" where the text starts with it, with "$" where it ends with it, with both only itself |
| `Regex.StarAndDot` | xv6/user/grep.c:86-105 | a starred character between the anchors matches the texts of that character only, the empty one included, "." exactly one character, and a starred "." any text |
| `Pipe.Ring.Write` | xv6/kernel/pipe.c:75-95 | a turn of pipewrite stores as many bytes as fit, in order, and ends asleep, failed or done as the code's tests say, also after the counters wrap |
| `Pipe.Ring.Read` | xv6/kernel/pipe.c:97-118 | a turn of piperead takes the oldest bytes, as many as asked for and there |
| `Pipe.Ring.Close` | xv6/kernel/pipe.c:57-73 | pipeclose closes one end; the page is freed exactly when both are closed |
| `Pipe.CountersTell` | xv6/kernel/pipe.c:82-103 | with 32-bit wrapping counters, equality tells empty and a difference of PIPESIZE tells full |
| `Pipe.FirstInFirstOut` | xv6/kernel/pipe.c:75-118 | in every run, bytes read are the bytes written, in order, without gap or repetition; at most 512 are in between |
| `Pipe.StepKeeps` | xv6/kernel/pipe.c:57-118 | a sleeping reader means an empty pipe open for writing, a sleeping writer a full one open for reading, after a step if and only if the step is not a killed writer filling an empty pipe past which a reader sleeps |
| `Pipe.RunsKeepInv` | xv6/kernel/pipe.c:57-118 | so in every run without such a step nobody sleeps in vain |
| `Pipe.KilledWriterStrandsReader` | xv6/kernel/pipe.c:82-88 | a state in which a killed writer leaves a reader asleep beside a full pipe |
| `FirstFit.Heap.MemAlloc` | p3/mem.c:112-201 | Mem_Alloc fails if and only if the size is not positive or no free block equals the size rounded up to a multiple of 4 or has room for 8 more; otherwise the first that does becomes a busy block of that size with what is left behind it, every other block unchanged |
| `FirstFit.Heap.MemFree` | p3/mem.c:212-306 | Mem_Free succeeds if and only if the address is a busy block's, which becomes free and merged with free neighbours, so that the busy blocks are the others; a failure changes nothing |
| `FirstFit.AllocatedTiled` | p3/mem.c:165-191 | allocation keeps the blocks tiling the region, sizes multiples of 4, no two free ones adjacent |
| `FirstFit.FreedTiled` | p3/mem.c:258-293 | freeing keeps the same |
| `FirstFit.FreeUndoesAlloc` | p3/mem.c:112-306 | freeing the block just allocated restores the list of blocks |
| `FirstFit.AllocThenFree` | p3/mem.c:112-306 | the same for the two calls on the list in memory |
| `FirstFit.Heap.constructor` | p3/mem.c:93-99 | Mem_Init leaves one free block over the whole region |
| `Directories.LinkKeeps` | xv6/kernel/sysfile.c:109-146 | a link keeps link counts equal to the entries naming each inode, if and only if the directory it is put in is itself linked |
| `Directories.CreateKeeps` | xv6/kernel/sysfile.c:213-255 | create keeps them, directories and their ".." included, if and only if the directory it creates in is linked |
| `Directories.RemovedTakesNames` | xv6/kernel/sysfile.c:213-255 | after mkdir and rmdir from a fresh file system a create in the removed directory is accepted, and breaks the link counts |
| `Directories.UnlinkKeeps` | xv6/kernel/sysfile.c:164-211 | every unlink keeps the link counts right and meets no inode without links |
| `Directories.OneLink` | xv6/kernel/sysfile.c:192-209 | an empty directory has exactly one link, so its removal leaves none |
| `Directories.ReclaimKeeps` | xv6/kernel/fs.c:280-300 | an inode without links is named in no linked directory, so giving it up leaves no dangling name |
| `Directories.RunsKeepInv` | xv6/kernel/sysfile.c:109-255 | in every run from a fresh file system in which no name is put into a removed directory, every link count is the number of entries other than "." in linked directories, and no linked directory holds a name twice |
| `DirOps.FileTree.DirLookup` | xv6/kernel/fs.c:464-493 | dirlookup finds the first entry with the name, or that there is none |
| `DirOps.FileTree.DirLink` | xv6/kernel/fs.c:495-523 | dirlink refuses a name that is there and else fills the first empty slot or appends; it panics exactly for a directory of the largest size, and does not get the block it needs exactly when none is free |
| `DirOps.FileTree.Link` | xv6/kernel/sysfile.c:109-146 | sys_link makes exactly one more link and entry, the name cut at 14 characters, or fails and rolls its increment back, or ends as dirlink does |
| `DirOps.FileTree.Create` | xv6/kernel/sysfile.c:213-255 | create makes the inode with its dots and its entry, every other inode given as it is then, or returns the existing file, fails, also for a directory that is there, or panics, each with its exact condition, running out of inodes, of blocks and of room included |
| `DirOps.FileTree.Unlink` | xv6/kernel/sysfile.c:164-211 | sys_unlink succeeds if and only if the name is there, not a dot name, and not a directory with entries; the entry is emptied and its inode, and the parent of a directory, has a link less; it never panics; a failure changes nothing |
| `DirOps.FileTree.IsDirEmpty` | xv6/kernel/sysfile.c:148-162 | isdirempty looks at every entry past the first two |

## Left out

- Directories as bytes: `DirOps.FileTree` works on lists of entries; of its steps, dirlookup and dirlink are proved on
  blocks as well (`FsDirectory`), and `sys_unlink`'s clearing of an entry as bytes (`EntriesPut`).  Path lookup (`namex`,
  `skipelem`) is left out.
- FileSystem.FileSys.Writei: says nothing of what is read and written once a block past the end is in use, as those sectors are no part of the file system.
- The order of locks on two inodes, and interleavings inside file system calls: the file and directory calls run one
  at a time; of the busy flag only `iput`'s test is modelled.
- Images made by mkfs: it rounds directory sizes up (`xv6/tools/mkfs.c:188-193`), which can leave blocks below a file's
  size unallocated, and gives subdirectories counts of their own; the file system starts from the empty image, or from one
  whose files have exactly the blocks their sizes need, with zeros behind their ends.
- Device files: `readi` and `writei` on them are handed to a driver that is not part of this model.
- The type of `balloc`'s and `bfree`'s loop variables: disk sizes are below 2^31.
- BufferRing.IdeintrStep: the protocol's disk makes no errors; what a failed read does to the buffer is in `Ideintr`.
- Crash safety, and port-level timing of the disk: the controller carries out one command at a time and
  raises its interrupt only when done.
- Devices other than 0 and 1, and sectors from 2^28 on: `idestart` drops those bits (`xv6/kernel/ide.c:77-80`), so two
  buffers could stand for one sector; the protocol asks for sectors the machine has.
- A process that asks `bread` for a sector it already holds waits for itself; the protocol has such runs and makes no
  promise of progress for them.
- StrideScheduling.BoundedWait: is about one CPU and a fixed set of runnable processes, as wakeups, kills and new processes can change the passes.
- `fork` stores the parent before it makes the child runnable; the life cycle has both in one step.
- Locks themselves, memory order, the trap and system call entry, `exec`, `growproc`, `copyout`, `loaduvm`, `inituvm`.
- Address spaces share nothing in the model, as in this kernel; P3B and p4 change that and are not covered.
- ProcTable.PTable.Exit: leaves out closing the files and giving back the current directory, which come before.
- VirtualMemory.Machine.DeallocUvm: is about sizes up to USERTOP, which every process has and `freevm` passes.
- FirstFit.Heap.MemAlloc: leaves out the sizes from 2147483637 up, whose rounding or header overflows an `int`; the header size of 8 is that of 4-byte pointers, and nothing depends on it but that 4 divides it.
- FirstFit.AllocThenFree: leaves out the same sizes.
- Link counts are unbounded; the code's are 16-bit.
- KRMalloc.Heap.Malloc: takes grants above all memory granted before; what follows a grant that is none is not modelled.
- KRMalloc.Heap.Morecore: the same.
- KRMalloc.MallocAccounts: the same.
- The alias in `parseexec`: the code fills a node's argument array after wrapping the node; commands are values here, and `Shell.WithArgs` puts the array in its place.
- Running the parsed command (`runcmd`), and `malloc` failing in the parser.
- Locale and bytes above 127 in the shell and in grep.
- Other allocators in `p3/`, the other kernel trees, user utilities, and console, timer and interrupt controller code.
