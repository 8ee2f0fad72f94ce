# The BSD half of a Mach 2.5 kernel, in Dafny

The model covers the data structures and small protocols of the kernel's BSD code that are kept in step by hand:

- the allocator of the fast file system: bit maps of fragments and inodes, and five kinds of counts that repeat what
  they say (`FragTables`, `FragMap`, `CylGroup`, `FreeSpace`, `FileSystem`, `FullDisk`);
- the map of a file: direct and up to triple indirect blocks, grown by bmap and pruned by itrunc (`BlockTree`,
  `FileMap`, `FileBytes`, `FileCut`, `Inode`);
- the directory name cache and the directory blocks that it must agree with (`Directory`, `NameCache`);
- the buffer cache, used by any number of processes (`BufferState`, `BufferSteps`, `BufferRuns`, `BufferTwins`,
  `BufferDoes`, `BufferRace`, `BufferCache`), and the elevator queue of a disk (`Disksort`);
- character lists over one pool of blocks (`Clist`), the callout list (`Callout`), the resource map (`ResourceMap`);
- two lock protocols with sleep and wakeup (`AdvisoryLock`, `LockTable`);
- the process table: tree, lists and pid hash, through fork, exit and wait (`Links`, `ProcLists`, `ProcTree`,
  `ProcTable`).

What the code changes in place is a class here, with the fields it changes; its `Valid()` is the invariant every
method keeps, and the contract ties the new state to the old. Where processes sleep, every stretch between two sleeps
is one step of a state machine (`Step`, `Run`), the invariant holds at every point of every run, and the methods are
proved to do what the steps do; what a step does is also stated apart from the function that is the step. Each panic is an outcome, and the contract says when it comes about.

## Model

| member | source | states |
|---|---|---|
| `FragTables.HitIsRun` | bsd/ufs_tables.c:37-42 | the masks of `around` and `inside` match at a place exactly when a maximal run of that length starts there |
| `FragTables.ScanTest8` | bsd/ufs_tables.c:91-124 | for 8 fragments a block, the bit of `fragtbl8` for a size is set exactly when the byte holds a maximal run of that size |
| `FragTables.ScanTest4` | bsd/ufs_tables.c:56-89 | the same of `fragtbl124` for 4 fragments a block: in one of the byte's two blocks |
| `FragTables.ScanTest2` | bsd/ufs_tables.c:56-89 | the same of `fragtbl124` for 2 fragments a block: in one of the byte's four blocks |
| `FragTables.ScanTest1` | bsd/ufs_tables.c:56-89 | the same for 1 fragment a block: some bit is set |
| `FragMap.FragAcct` | bsd/ufs_subr.c:244-272 | every entry of the list changes by the given amount times the number of maximal runs of its length in the block, and no other entry changes |
| `CylGroup.Cg.Mapsearch` | bsd/ufs_alloc.c:1287-1343 | finds the first maximal run of exactly the size asked, from the hint on and going round; fails, in its two panics, exactly when no block of the group has one |
| `CylGroup.Cg.Alloccgblk` | bsd/ufs_alloc.c:943-1046 | takes one wholly free block, the one asked for if it is free, else one of the cylinder asked for if that has any; fails exactly when the count of free blocks is 0; all counts stay those of the map |
| `CylGroup.Cg.ExtendFrags` | bsd/ufs_alloc.c:788-844 | grows a piece in place exactly when the fragments behind it are free, and takes those alone; run counts stay those of the map |
| `CylGroup.Cg.FreeBlock` | bsd/ufs_alloc.c:1163-1184 | panics exactly when the whole block was free already; otherwise the counts are right after exactly when none of it was free |
| `FullDisk.FreesBlockTwice` | bsd/ufs_alloc.c:1163-1184 | a group in which one fragment of a block is freed and then the whole block: no panic, and the counts are wrong |
| `CylGroup.Cg.FreeFrags` | bsd/ufs_alloc.c:1185-1217 | panics exactly when one of the fragments was free; otherwise they are free, and the counts, also of a block that became whole, are right |
| `CylGroup.Cg.NextInode` | bsd/ufs_alloc.c:1057-1124 | finds the lowest unused inode, though it scans from the rotor on; its panics come about only when every inode is used |
| `FileSystem.Fs.Alloccg` | bsd/ufs_alloc.c:853-929 | takes exactly `size` fragments of one block of the group, and fails, changing nothing, exactly when the group has no room; the totals of group and file system stay right |
| `FileSystem.Fs.Fragextend` | bsd/ufs_alloc.c:788-844 | succeeds exactly when the block reaches that far and all that is behind the piece is free |
| `FileSystem.Fs.Free` | bsd/ufs_alloc.c:1133-1224 | which outcome there is, exactly; when it goes through, the file system is consistent exactly if all that was freed was in use, and then just that became free |
| `FullDisk.FreesTwice` | bsd/ufs_alloc.c:1133-1224 | the same through the file system: it goes through, and leaves it inconsistent |
| `FileSystem.Fs.Hashalloc` | bsd/ufs_alloc.c:735-779 | ends for any number of groups and any preferred one; fails only if every group fails, and changes nothing then |
| `FileSystem.Fs.Ialloccg` | bsd/ufs_alloc.c:1058-1124 | takes one inode that was unused; fails exactly when the group's count says that there is none; the inode asked for is the one if it is unused; the counts of unused inodes and of directories follow |
| `FileSystem.Fs.Ifree` | bsd/ufs_alloc.c:1231-1278 | panics exactly when the number is out of range or the inode is not in use; else that one, and no other, is unused, and the counts of inodes and of directories follow |
| `FileSystem.Fs.Alloc` | bsd/ufs_alloc.c:145-188 | fails exactly when the reserve is reached or no group has room; the free set loses the piece and nothing else, the free count its size; a whole block comes from where it was asked for if that is free, and any piece from the group asked for, or else the file's, if that has room |
| `FileSystem.Fs.FreespaceIs` | bsd/ufs_alloc.c:163 | what counts against the reserve is what is free in fact |
| `FileSystem.Fs.Realloccg` | bsd/ufs_alloc.c:416-540 | in place, for space and for time: success takes the new piece alone and lowers the free fragments by exactly the growth; it fails, changing nothing, exactly when stated; in place exactly when it can be, and else in its group if that has room; what to optimize for afterwards |
| `BlockTree.LeavesApart` | bsd/ufs_bmap.c:206-304 | two data blocks of a sound tree of indirect blocks share no fragment, however deep it is |
| `BlockTree.GraftLookup` | bsd/ufs_bmap.c:249-297 | a new block in the tree changes what is found for its own index and for no other |
| `BlockTree.TrimLookup` | bsd/ufs_inode.c:724-796 | after a cut every index up to the last is found as before, every later one is a hole, and no empty indirect block is left |
| `FileMap.NoSharing` | bsd/ufs_bmap.c:93-305 | no two blocks of a sound file share a fragment; soundness is what every operation on `Inode` keeps |
| `FileBytes.HoldsBytes` | bsd/ufs_bmap.c:130-204 | a direct block has fragments for all bytes of the file in it, and not one more than they need |
| `FileBytes.ByteInBlock` | bsd/ufs_bmap.c:130-305 | every byte of a mapped block is in a fragment of the file, at its offset from the block's address |
| `FileBytes.BytesApart` | bsd/ufs_bmap.c:130-305 | no two bytes of a sound file are in one place on the disk |
| `FileBytes.FoundAt` | bsd/ufs_bmap.c:206-247 | which blocks are found directly, and which through one, two or three indirect blocks, and at which place |
| `Inode.Inode.Bmap` | bsd/ufs_bmap.c:93-305 | for reading: the block as mapped, a hole, or out of range, with nothing changed; for writing: only the block asked for and a last piece that had to grow are mapped differently, and failure means that there is no space; i_size changes exactly when the last piece is short of a block, before the block asked for, and can be made to grow; the fragments of the block then hold the bytes that are to be written |
| `FullDisk.RoundsUpAndFails` | bsd/ufs_bmap.c:128-147 | a file of one byte and a block number out of range: bmap fails, and the file is two bytes long |
| `Inode.Inode.WriteBlock` | bsd/sys_inode.c:332-338 | bmap and the size update after it keep the whole invariant: no shared fragments, no hole for a partial last block, i_blocks the size of all that can be reached, all of it apart from the free map; the bytes written are in fragments of the file, and i_size is at least their end |
| `FileCut.CutStep` | bsd/ufs_inode.c:625-711 | a cut gives back what the file loses, each fragment once, and no more |
| `Inode.Indirtrunc` | bsd/ufs_inode.c:724-796 | what becomes free is what the subtree loses, and the count returned is its size in sectors |
| `Inode.Inode.Itrunc` | bsd/ufs_inode.c:527-711 | the file is cut to the length exactly: blocks before the end are mapped as after the hole at the end was filled, later ones are holes, what is lost is what becomes free, i_blocks falls by its size; it gives up only for lack of space; every block that starts before the new end is where it was, none behind it is left |
| `Directory.AgreesOnce` | bsd/mach_directory.c:502-590 | what a table in step with a directory holds does not depend on how it came about |
| `Directory.EntryFits` | bsd/mach_directory.c:1433-1497 | a record of a directory has room for its name, and lies in its block apart from the others |
| `NameCache.NameCache.FileLookup` | bsd/mach_directory.c:593-632 | the table that is asked is in step with the blocks, read again if it had been thrown out |
| `NameCache.NameCache.Namei` | bsd/mach_directory.c:921-964 | a name is found exactly when the directory has it, with the record's true inode, place, length and length before |
| `NameCache.NameCache.Direnter` | bsd/mach_directory.c:1341-1517 | the directory gains that name and nothing else, the panic does not come about; the cache stays in step exactly when the directory was still cached, or its first fitting record is unused, or the last allocation throws it out |
| `NameCache.EntersTwice` | bsd/mach_directory.c:1341-1517 | an input for which it does not: the new name is then in the table twice |
| `NameCache.SecondEntryAnswers` | bsd/mach_directory.c:690-702 | of a name that is in the table twice, removal leaves the second entry, which then answers |
| `NameCache.NameCache.RemoveDoubled` | bsd/mach_directory.c:1526-1637 | such a name, removed, is gone from the directory and still found in the cache |
| `NameCache.NameCache.Dirremove` | bsd/mach_directory.c:1526-1637 | the name, and nothing else, is gone; the cache stays in step; the restart for mismatched sizes does not come about |
| `NameCache.NameCache.Dirrewrite` | bsd/mach_directory.c:1644-1667 | the name is for the inode given, and nothing else changes; it is that inode whose names are thrown out |
| `NameCache.NameCache.RemoveAndReuse` | bsd/mach_directory.c:1526-1637 | after a removal the inode can become another directory, and the cache is in step |
| `NameCache.NameCache.RewriteAndReuse` | bsd/mach_directory.c:1644-1667 | after a rewrite and such a reuse the cache is in step exactly when the inode is not cached after the search, or is the new one too, or its table happens to fit the new directory |
| `NameCache.NameCache.OutlivedByAny` | bsd/mach_directory.c:1644-1667 | the caller's condition: whatever the new directory is, exactly when the inode is not cached after the search or is the new one |
| `NameCache.NameCache.AnswersForOld` | bsd/mach_directory.c:1644-1667 | otherwise every name that the old directory has and the new one has not is still answered for, with the old inode |
| `NameCache.AnswersForAnother` | bsd/mach_directory.c:1644-1667 | two directories for which that happens |
| `BufferRuns.InitInv` | bsd/init_main.c:835-860 | the buffers as set up at the start meet the invariant |
| `BufferSteps.RunKeepsInv` | bsd/ufs_bio.c:93-645 | in any run of any number of processes: a buffer is on exactly one list, once, if and only if it is not busy; each is on the chain of its block; a busy one is always somebody's or in flight; what was last written to a block is on the disk or in a buffer that will be written |
| `BufferRuns.ReadsLatest` | bsd/ufs_bio.c:93-115 | what a process has of a block, once it is done, is what was last written to it, across evictions and whoever else used it |
| `BufferRuns.LatestIs` | bsd/ufs_bio.c:182-241 | what was last written changes by bwrite, bawrite and bdwrite of a buffer that the process has, and by no other step |
| `BufferDoes.OpDoes` | bsd/ufs_bio.c:93-241 | what bread, breada, brelse, bwrite, bawrite and bdwrite do with the buffer: who waits, what is in flight, where in the lists it is, what is in it |
| `BufferDoes.EmptyReleased` | bsd/ufs_bio.c:246-292 | a buffer of no block that is given up is the next to be taken |
| `BufferDoes.BwriteWaits` | bsd/ufs_bio.c:182-208 | whatever others do meanwhile, when a process leaves bwrite what it wrote is on the disk |
| `BufferDoes.DoneDoes` | bsd/ufs_bio.c:556-574 | what came from the disk or is on it, and who goes on |
| `BufferDoes.GetDoes` | bsd/ufs_bio.c:340-399 | a buffer of the block, if there is one, is the process's or is waited for; else the first clean free one is taken, those before it being sent to the disk, and others of the block are waited for |
| `BufferDoes.GeteblkDoes` | bsd/ufs_bio.c:406-425 | the same without a block |
| `BufferDoes.GoDoes` | bsd/ufs_bio.c:340-574 | where a process that was woken goes on |
| `BufferRuns.BreadBrings` | bsd/ufs_bio.c:93-115 | bread leaves the process with the block, or asleep until the disk is done with it |
| `BufferRuns.DiskBrings` | bsd/ufs_bio.c:556-574 | and then it has it, with what was last written |
| `BufferRuns.AsksForOne` | bsd/ufs_bio.c:340-399 | a process ends up with a buffer of the very block it asked for, whatever happens in between |
| `BufferRuns.HeldAlone` | bsd/ufs_bio.c:246-531 | a buffer that a process has is changed by no other process and by no disk |
| `BufferRuns.OneOfABlock` | bsd/ufs_bio.c:431-496 | while two buffers that are not invalid are of one block, a process is claiming one of them for it |
| `BufferTwins.TwinsStep` | bsd/ufs_bio.c:340-531 | the one step that leaves two buffers of a block where there were not, exactly: a process that slept for a free buffer for that block goes on, there is a free buffer that need not be written, and a buffer of the block is busy or waits to be written |
| `BufferTwins.AlwaysOneExactly` | bsd/ufs_bio.c:340-531 | a run has never two buffers of a block if and only if it has no such step |
| `BufferRace.TwoOfOneBlock` | bsd/ufs_bio.c:385-396 | a run in which there are two |
| `BufferRuns.NoWakeupLost` | bsd/ufs_bio.c:246-292 | whoever sleeps for a buffer sleeps for one that is busy and marked as wanted; for any buffer, while none is free; for the disk, while it is at work |
| `BufferRuns.FlushStartsAll` | bsd/ufs_bio.c:623-645 | bflush ends, and leaves no buffer of the device waiting on a list to be written; those that did are in flight, and no other is touched |
| `BufferRuns.FlushedToDisk` | bsd/ufs_bio.c:623-645 | with no process at a buffer, once the disks are done, what was last written to the device's blocks is on it |
| `BufferRuns.ClipIs` | bsd/ufs_bio.c:353-360 | which block numbers getblk takes for one |
| `BufferCache.Cache.constructor` | bsd/init_main.c:835-860 | sets up that first state |
| `BufferCache.Cache.Getblk` | bsd/ufs_bio.c:340-399 | the loops over chains and lists come to the step of the state machine: a free hit is taken, a busy one is marked and slept for, a miss claims a new buffer or sleeps |
| `BufferCache.Cache.Geteblk` | bsd/ufs_bio.c:406-425 | the same for a buffer of no block, which is invalid from the start |
| `BufferCache.Cache.Getnewbuf` | bsd/ufs_bio.c:504-531 | ends; writes every dirty buffer it passes; takes the oldest clean one, or sleeps |
| `BufferCache.Cache.Brealloc` | bsd/ufs_bio.c:431-496 | waits for another buffer of the block if it is busy, has it written if it is dirty, makes it invalid if it is neither, and keeps the invariant meanwhile |
| `BufferCache.Cache.Resume` | bsd/ufs_bio.c:340-574 | a process that was woken goes on from where it slept |
| `BufferCache.Cache.Bread` | bsd/ufs_bio.c:93-115 | the step of which `BreadBrings` says what it brings |
| `BufferCache.Cache.Breada` | bsd/ufs_bio.c:144-165 | for the block that is read ahead: given up at once if it is there, or read with nobody waiting |
| `BufferCache.Cache.Bwrite` | bsd/ufs_bio.c:182-241 | what was put in the buffer is the block's latest, and on its way; the process waits, or has no more to do with it |
| `BufferCache.Cache.Bdwrite` | bsd/ufs_bio.c:216-230 | what was put in the buffer is the block's latest, and waits in the free buffer to be written; for a tape it is bawrite |
| `BufferCache.Cache.Release` | bsd/ufs_bio.c:246-292 | brelse: the buffer is on the one list it belongs on, and all who waited for it or for any are awake |
| `BufferCache.Cache.Iodone` | bsd/ufs_bio.c:556-574 | biodone: data and disk agree, those who wait are awake, and a buffer nobody waits for is free |
| `BufferCache.Cache.Bflush` | bsd/ufs_bio.c:623-645 | the loop that starts over after each write ends, and comes to the step of `FlushStartsAll` |
| `Disksort.Queue.Disksort` | bsd/ufs_dsort.c:53-129 | the request goes into its place in the chain, behind the others of its cylinder, never before the first; two ascending runs are left, and b_actl at the tail |
| `Disksort.Queue.Done` | i386at/adaptec.c:650-665 | a driver takes the first off: two runs are left |
| `Disksort.StepKeepsInv` | bsd/ufs_dsort.c:53-129 | an ascending run, and another all below its front; equal cylinders in the order they came |
| `Disksort.ServedWithinOneTurn` | bsd/ufs_dsort.c:53-129 | whatever else comes, every request is served after at most one downward move of the arm; one in the first run after none |
| `Clist.Clists.Cinit` | bsd/init_main.c:865-877 | every block is free, every clist empty |
| `Clist.Clists.Getc` | bsd/tty_subr.c:45-85 | takes the first character; -1 only from an empty clist |
| `Clist.Clists.Putc` | bsd/tty_subr.c:247-281 | appends a character; fails exactly when the last block is full and none is free |
| `Clist.Clists.Unputc` | bsd/tty_subr.c:359-395 | takes the last character back, sign-extended |
| `Clist.Clists.QToB` | bsd/tty_subr.c:91-148 | moves as many as asked, or all, in order; how many blocks that frees, exactly |
| `Clist.Clists.BToQ` | bsd/tty_subr.c:287-332 | appends as many as there is room for, and returns how many are left; how many blocks that takes, exactly |
| `Clist.Clists.Ndflush` | bsd/tty_subr.c:193-244 | drops the first characters |
| `Clist.Clists.Catq` | bsd/tty_subr.c:401-421 | not one character is lost, even with no block free, if the pool is left alone meanwhile |
| `Clist.Clists.CatChunkAmid` | bsd/tty_subr.c:417-420 | if it is not: how many are lost, from the free blocks and the room in the last blocks before, and from what others put in meanwhile |
| `Clist.CatLoses` | bsd/tty_subr.c:417-420 | three clists of which catq loses a character |
| `Clist.Clists.CatSelfTurn` | bsd/tty_subr.c:417-420 | onto itself the loop turns the characters round and leaves as many |
| `Clist.EndOrCharacter` | bsd/tty_subr.c:359-395 | unputc's -1 for the end is also what it returns for the character 255, and for no other; getc's is not |
| `Callout.RunKeepsInv` | bsd/kern_clock.c:344-718 | over any run the list is in order of deadlines and no entry is lost: each is pending, fired or cancelled, once |
| `Callout.ArmDoes` | bsd/kern_clock.c:628-671 | one entry more, with its call and the tick it is due at, before all that are not due earlier |
| `Callout.CancelDoes` | bsd/kern_clock.c:677-718 | the first entry for the call is out of the list and noted, all others stay in their order; nothing changes if there is none |
| `Callout.CancelledNeverFires` | bsd/kern_clock.c:677-718 | and it does not fire in any run after that |
| `Callout.SoftDoes` | bsd/kern_clock.c:578-606 | the first entry is called and gone, if it is due |
| `Callout.TickDoes` | bsd/kern_clock.c:344-356 | a tick moves the clock by one, and nothing else |
| `Callout.FiresOnce` | bsd/kern_clock.c:578-606 | nothing fires twice, or after it was cancelled, or is still pending |
| `Callout.FiresInTime` | bsd/kern_clock.c:628-671 | a routine is called no earlier than its ticks have passed, and has been once softclock has nothing left to do after, unless a cancellation was asked for |
| `Callout.DifferencesAddUp` | bsd/kern_clock.c:344-356 | the stored differences add up to the deadlines |
| `Callout.Queue.Hardclock` | bsd/kern_clock.c:344-356 | one tick brings every pending entry one nearer |
| `Callout.Queue.Timeout` | bsd/kern_clock.c:628-671 | arms the call and changes nobody else's time; panics exactly when the table is full |
| `Callout.Queue.Untimeout` | bsd/kern_clock.c:677-718 | takes the first entry of the call out, changes nobody else's time, and frees its slot |
| `Callout.Queue.Softclock` | bsd/kern_clock.c:578-606 | whatever the routines arm and cancel, depending on all that went before, and whatever number of ticks come meanwhile, it ends with nothing left to call; each turn calls the first entry, which is due |
| `ResourceMap.OneForm` | bsd/subr_rmap.c:221-337 | there is one way only to write down a set of free addresses |
| `ResourceMap.Map.Rmalloc` | bsd/subr_rmap.c:164-213 | first fit; fails exactly when no segment is large enough; takes exactly that range |
| `ResourceMap.Map.Rmfree` | bsd/subr_rmap.c:221-337 | panics exactly for address 0, a size not positive, or a range of which anything is free; else exactly that range becomes free, but for a full map |
| `ResourceMap.LostOnOverflow` | bsd/subr_rmap.c:303-331 | what a full map loses: one whole segment, the last but one |
| `ResourceMap.LosesTheLarger` | bsd/subr_rmap.c:303-331 | a map in which that is larger than the one that is kept |
| `ResourceMap.Map.Rmget` | bsd/subr_rmap.c:351-433 | takes the range exactly when all of it is free and what is left around it fits the map |
| `ResourceMap.Map.GiveAndTakeBack` | bsd/subr_rmap.c:164-337 | rmfree after rmalloc restores the very segments |
| `AdvisoryLock.RunKeepsInv` | bsd/sys_inode.c:627-730 | shared and exclusive holders never coexist, there is one exclusive at most, in any run of any number of processes and shared files |
| `AdvisoryLock.GrantedExactly` | bsd/sys_inode.c:627-694 | a request is granted exactly when no other file has a lock that it cannot be beside |
| `AdvisoryLock.LockDoes` | bsd/sys_inode.c:627-694 | what was granted is held, the locks of other files are as before, and whoever cannot have it and may block is asleep for it |
| `AdvisoryLock.UnlockDoes` | bsd/sys_inode.c:699-730 | just what is given up is gone, and just those sleep on whose kind of lock is still held |
| `AdvisoryLock.KeepsLock` | bsd/sys_inode.c:627-730 | a file has its lock until a step of its own, in any run, and nobody is granted one against it |
| `AdvisoryLock.GrantExcludes` | bsd/sys_inode.c:627-730 | from the grant on, no second lock against it is granted |
| `AdvisoryLock.NoWakeupLost` | bsd/sys_inode.c:627-730 | once nobody holds a lock nobody sleeps, though one bit serves both channels |
| `AdvisoryLock.FailedAttempt` | bsd/sys_inode.c:627-694 | a request that may not block and fails changes nothing, exactly unless it was for an upgrade: then the shared lock is gone |
| `AdvisoryLock.UpgradeLosesLock` | bsd/sys_inode.c:627-694 | two files with shared locks, of which one loses its lock that way |
| `AdvisoryLock.SleepsOnOthers` | bsd/sys_inode.c:627-694 | the one step after which a process sleeps for a lock of its own file, exactly |
| `AdvisoryLock.SleepersHaveCause` | bsd/sys_inode.c:627-694 | in runs without that step, whoever sleeps has another file's lock in its way |
| `AdvisoryLock.SleepsOnItsOwnFile` | bsd/sys_inode.c:627-694 | a run with it |
| `AdvisoryLock.Inode.Ino_lock` | bsd/sys_inode.c:627-694 | flags, counters and sleepers after it are those of the step; granted, the file's own flags say so |
| `AdvisoryLock.Inode.Ino_unlock` | bsd/sys_inode.c:699-730 | the same; its panics do not come about |
| `LockTable.RunKeepsInv` | bsd/sys_ild.c:75-351 | no two locks of one key and kind are held with either exclusive; no limit is passed; whoever sleeps sleeps for a lock that is held, or at a limit that is reached |
| `LockTable.AskDoes` | bsd/sys_ild.c:129-157 | a request that sleeps: granted, exactly when nothing is against it, one slot that was empty has just that lock; else the process sleeps |
| `LockTable.TryDoes` | bsd/sys_ild.c:111-128 | the same for one that does not |
| `LockTable.ReleaseDoes` | bsd/sys_ild.c:241-266 | the first such lock of the process is gone and no other, and just those are woken whose reason to sleep is |
| `LockTable.ReleaseAllDoes` | bsd/sys_ild.c:272-281 | the same for all locks of a process |
| `LockTable.AbortDoes` | bsd/sys_ild.c:336-351 | all locks are gone and all awake |
| `LockTable.KeepsEntry` | bsd/sys_ild.c:75-351 | a lock stays in the table until its process gives it up or all are given up, in any run |
| `LockTable.GrantExcludes` | bsd/sys_ild.c:75-351 | until then no lock is granted that cannot be had beside it |
| `LockTable.AnswerIs` | bsd/sys_ild.c:75-182 | each answer, and exactly when it is given |
| `LockTable.NoWakeupLost` | bsd/sys_ild.c:75-351 | once no lock is held nobody sleeps, and any request is granted |
| `LockTable.GrantFindsSlot` | bsd/sys_ild.c:287-313 | where ilenter is called there is a slot |
| `LockTable.Device.Ilwrite` | bsd/sys_ild.c:75-182 | table, limits, sleepers and reply are those of the step the request stands for; with the reply 0 to a request for a lock, the lock is in the table |
| `LockTable.Device.Resume` | bsd/sys_ild.c:127-170 | the same for a process that was woken |
| `LockTable.Device.Ilrm` | bsd/sys_ild.c:241-266 | gives up the slot if it is the process's, and wakes exactly those whose reason to sleep is gone |
| `LockTable.Device.Ilclose` | bsd/sys_ild.c:336-351 | gives up everything and wakes everyone |
| `ProcTree.WalkIsSubtree` | bsd/kern_proc.c:92-124 | the walk without a stack meets everyone under its top, and everyone once |
| `ProcTree.ForkKeepsTree` | bsd/kern_fork.c:279-327 | child, sibling and parent links are those of a tree after a fork |
| `ProcTree.AdoptKeepsTree` | bsd/kern_exit.c:313-347 | and after a child is handed on |
| `ProcTree.ReapKeepsTree` | bsd/kern_exit.c:501-517 | and after a child is laid to rest |
| `ProcTable.Table.constructor` | bsd/kern_proc.c:154-176 | sets up a valid table |
| `ProcTable.Table.Spgrp` | bsd/kern_proc.c:92-124 | the three stop signals, and no others, are cleared for exactly those under `top`, each met once; the result is how many they are |
| `ProcTable.Table.Newproc` | bsd/kern_fork.c:276-374 | keeps the tree, the lists and the hash; panics exactly when no slot is free; the new process is its parent's youngest child, and all others keep their parents |
| `ProcTable.Table.Wait3` | bsd/kern_exit.c:472-545 | lays the youngest dead child to rest, and clears its slot alone, or tells that there is none or that none is dead and changes nothing; keeps the table valid |
| `ProcTable.Table.Exit` | bsd/kern_exit.c:268-347 | the process is a zombie off its chain, its children are slot 1's, their signals cleared; the panic for a missing process does not come about; the table stays valid; for slot 1 it panics exactly when that is the first of its chain, and if not each of its children leads to the one before it, the first to itself, and none is found from slot 1 |
| `ProcTable.StrandedIsNoTree` | bsd/kern_exit.c:313-347 | those links are of no tree |
| `ProcTable.InitGoesUnnoticed` | bsd/kern_exit.c:268-347 | a table in which slot 1 exits that way |
| `ProcTable.Table.Pfind` | bsd/kern_proc.c:140-149 | finds the running process of a pid, if there is one |
| `ProcTable.Table.Inferior` | bsd/kern_proc.c:129-137 | tells whether one process is under another; asked about slot 0, only whether it is that very process |

## Findings

Properties that the code does not have as its documentation or its callers would want them; for each a member shows an
input, and another says exactly when it happens.

- Freeing a whole block of which a part is free already is not noticed, and leaves the counts wrong
  (bsd/ufs_alloc.c:1163-1175; when: `CylGroup.Cg.FreeBlock`, `FileSystem.Fs.Free`; inputs: `FullDisk.FreesBlockTwice`,
  `FullDisk.FreesTwice`).
- direnter can leave a new name twice in the cache, when the directory was thrown out between the search and the entry
  and the record used holds another entry (bsd/mach_directory.c:1341-1517; when: `Direnter`; input: `EntersTwice`). The
  name then outlives its removal in the cache (`RemoveDoubled`).
- dirrewrite throws the names of the new inode out of the cache, not those of the one that was replaced, so that the
  old inode, used again for a directory, is answered for from the old one (bsd/mach_directory.c:1644-1667; when:
  `RewriteAndReuse`, `OutlivedByAny`; inputs: `AnswersForOld`, `AnswersForAnother`).
- bmap for writing can round i_size up to the end of the last block even when it then fails (bsd/ufs_bmap.c:128-147;
  when i_size changes: `Inode.Inode.Bmap`; input: `FullDisk.RoundsUpAndFails`).
- There can be two buffers of one block, neither of them invalid, when two processes have waited for a free buffer;
  the second waits for the first before it is used (bsd/ufs_bio.c:385-396; when: `BufferTwins.TwinsStep`,
  `AlwaysOneExactly`; input: `BufferRace.TwoOfOneBlock`).
- getblk takes all block numbers of 2 to the 23rd and above, and all negative ones, for one block
  (bsd/ufs_bio.c:353-360; `BufferRuns.ClipIs`).
- unputc returns -1 both for an empty clist and for the character 255 (bsd/tty_subr.c:359-395; `EndOrCharacter`).
- catq loses characters when others take blocks between its two halves (bsd/tty_subr.c:401-421; how many:
  `CatChunkAmid`; input: `CatLoses`), and does not end for a clist onto itself (`CatSelfTurn`).
- A full resource map loses the last segment but one, though it be larger than the last (bsd/subr_rmap.c:303-331;
  which: `LostOnOverflow`; input: `LosesTheLarger`).
- A request to turn a shared lock into an exclusive one that may not block gives up the shared lock when it fails
  (bsd/sys_inode.c:627-694; when: `FailedAttempt`; input: `UpgradeLosesLock`).
- A process can sleep for a lock that its own file holds, when another process that shares the file locks it meanwhile
  (bsd/sys_inode.c:627-694; when: `SleepsOnOthers`; input: `SleepsOnItsOwnFile`).
- The end of process 1 is noticed only where it is the first of its hash chain, since the search for it in the chain
  jumps past the check; otherwise it becomes the parent of its own children once more, and their links are no list
  (bsd/kern_exit.c:275-296; when: `ProcTable.Table.Exit`, `StrandedIsNoTree`; input: `InitGoesUnnoticed`).

## Left out

- Bit maps are sequences of booleans, one for each fragment; the packed bytes, setblock, clrblock and isblock appear
  only where mapsearch reads them. Sizes are in fragments, not bytes, but for the size of a file.
- The rotational tables fs_postbl and fs_rotbl: the blocks of a cylinder and position are any chain of blocks in it.
- Where a new block would best be (blkpref, dirpref, the inode to try first): parameters of the allocation.
- I/O errors, B_ERROR, B_CALL, quota, accounting, and the error numbers in u_error.
- Widths: numbers do not wrap round. Block numbers are as the map stores them; file sizes fit triple indirection.
- What blocks of a file hold: the maps of a file name blocks, and the buffer cache knows nothing of files.
- Read-ahead of bmap (rablock, rasize), and shrinking pieces in realloccg.
- FileSystem.Fs.Alloc: the wait for space (fsfull, fssleep) and the message are left out; a full file system is a
  failure.
- FileSystem.Fs.Free: takes pieces within one block, as the code's own panic for bad sizes demands.
- NameCache.NameCache.Direnter: which directories the zone allocator throws out is a given set for each allocation, as
  no code here decides it; the cache is of one device, and its hash chains are one table by name. Only the first record
  of a block may be unused, as no operation here leaves another so; for another direnter (1433-1497) would note a
  length of 0 for the record before it.
- NameCache.NameCache.Namei: the path, symbolic links, mount points and permissions are left out, and directories with
  damaged entries.
- BufferCache.Cache.Brealloc: each block is always asked for with one size, so that only buffers of the same block
  overlap, and memory for it is there: allocbuf (i386/ufs_machdep.c), which moves pages between buffers and may sleep,
  is not part of the model. Buffers locked in core are left out, as nothing sets B_LOCKED; so is B_AGE, which has no
  effect unless BQ_AGE_DISABLE is patched; so are blkflush and binval.
- BufferRuns.ReadsLatest: a process that changes a buffer writes it before it gives it up.
- Disksort: that a request is served at all is not promised. Requests for the cylinder the arm is on can keep it
  there.
- Clist: words (getw, putw), nextc and ndqb only read what the others keep.
- Callout.Queue.Softclock: the ticks that come while it runs are bounded, by any number that is given. That hardclock
  calls it, and the levels of the processor's priority, are left out.
- LockTable.Device.Ilwrite: a process that is interrupted in its sleep leaves the protocol.
- AdvisoryLock.Inode.Ino_lock: the same; and the files of one inode are a given set.
- ProcTable.Table.Newproc: the search for a pid (mpid, pidchecked) does not establish that it is new; it is assumed to
  be. Memory, files, credentials and the thread are left out.
- ProcTable.Table.Exit: signals to parent and children, tracing, usage times, files; that process 0 does not exit.
- ProcTable.Table.Wait3: children that are stopped, and its options.
- init_process, which makes a process its own parent, is not part of this model.
