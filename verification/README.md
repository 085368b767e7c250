# aiOS: a verified model of its file system, kernel tables, directory commands and terminal

aiOS is a small 32-bit teaching kernel. This project models four of its parts and proves what they keep over whole
runs. Code that works by changing things in place is written as methods of classes over the same arrays and fields
(`BlockDevice`, `Fat32Driver`, `Pager`, `KernelState`, `KernelStack`, `UserShell`, `Framebuffer`). Each method is tied
to a function of the old state, and the theorems are about those functions. `dafny verify dfyconfig.toml` checks the
whole project.

**The FAT file system** (`Words`, `FatLayout`, `FatShape`, `FatOps`, `FatTree`, `FatAtomic`, `FatFiles`, `FatLimits`,
`FatRuns`, `FatHiding`, `FatBytes`, `FatFormat`, `Disk`, `Driver`). The disk is the 4 MiB byte image of the inserter
tool. `Mount` decodes an image into a FAT, directory tables and data clusters. `Sound` is the heap-like invariant:
every live entry owns an acyclic chain of exactly the length its size demands, no cluster has two owners, every owned
cluster is linked in the FAT, and the directories form a tree rooted at cluster 2 whose slot-1 pointers lead up.
`WellFormed` adds that no cluster is leaked. Runs mix writes, directory creations, file deletes, reads, remounts and
crashes that cut an operation off after any of its disk writes. Over every run the volume stays sound, the driver
refines a map from (directory, name, extension) to padded contents, and the cached FAT equals the one on disk. Where
the code falls short of that, the exact condition is proved and an input shown: writes with too few free clusters,
files hidden by a directory's name, a delete stopped by a directory, a format cut off by a crash. `FatBytes` says what
the calls answer and change on any disk, sound or not, in the bytes of its clusters.

**Processes, frames and the scheduler** (`Paging`, `Context`, `Processes`, `KernelRuns`, `Isolation`, `KernelLaws`,
`KernelDisk`, and `KernelCode` in `Kernel.dfy`). A run interleaves timer ticks, creates with any executable-read
status, destroys of processes other than slot 0 and the running one, and user code that may change every register but
CR3. From boot on the kernel never dereferences a missing slot or directory, waiting is bounded, frames and mappings
correspond, and a preempted process resumes with the registers and the address space it had. `KernelLaws` states in
numbers what directories map, what a create answers and how boot ends; over every run each directory in use maps the
kernel.

**Directory commands** (`Paths`, `PathLaws`, `Find`, `Reports`, `Shell`, `Naming`): the path shown by the prompt, `cd`
on absolute and relative paths, the recursive search, whose reports are the prompt's paths, and how names that `write`
accepts fare with them.

**The text terminal** (`TerminalLog`, `TerminalLaws`, `Terminal`): the 25x80 screen shows a window of an unbounded
edited log, and every character of a text has its computed place.

Conventions. Words of 8, 16 and 32 bits are subset types of `int`, and wrap-around and truncation are written out. A
buffer passed to `write` or `read` extends to whole clusters, because the transfers do. The bytes a new directory
table is built over (`garbage`) are arbitrary. Reading an executable is a parameter of a create, the process names the
terminal looks at when it scrolls are a parameter of the terminal methods, and the addresses of the page directories
are a parameter `Layout`.

Where code and comments disagree, the model follows the code. `read` returns -1 for a too small buffer and 2 for a
missing file (the header says 2 and 3). `paging_allocate_check` expects bytes and is passed a number of frames.
`write` may accept a file for which there are too few free clusters.

## Model

| member | source | states |
|---|---|---|
| Words.Le32RoundTrip | src/header/filesystem/fat32.h:58-60 | four little-endian bytes determine the word they encode |
| FatLayout.TableRoundTrip | src/header/filesystem/fat32.h:62-103 | a directory table written as 2048 bytes decodes to the same 64 entries, field by field |
| FatLayout.FatRoundTrip | src/header/filesystem/fat32.h:58-60 | the FAT written as 2048 bytes decodes to the same 512 cells |
| FatShape.LinkValues | src/fat32.c:217-225 | after linking, each chosen cluster points to the next and the last to the end mark, and no other cell changes |
| FatShape.ChainFrom | src/fat32.c:130-135 | following the FAT from an owned cluster visits exactly the rest of its owner's clusters |
| FatShape.ChainsAreProper | src/fat32.c:130-135 | the chain of a live entry has exactly the length its size demands, never repeats, stays inside the FAT and ends at the end mark |
| FatShape.ChainsAreDisjoint | src/fat32.c:154-178 | chains of two different live entries share no cluster |
| FatShape.NonFreeIsOnAChain | src/fat32.c:165-178 | every owned cluster lies on the chain of one live entry at its recorded position |
| FatShape.SoundFrame | src/fat32.c:208-230 | writes outside the reachable tables and owned cells keep the volume sound |
| FatShape.GrowKeepsSound | src/fat32.c:189-232 | adding one entry with a fresh linked chain keeps the invariant and leaks nothing |
| FatShape.ShrinkKeepsSound | src/fat32.c:270-272 | clearing a file's entry keeps the invariant and leaks exactly that file's chain until the FAT is written |
| FatOps.AllocateLowest | src/fat32.c:160-178 | with enough free clusters a write takes the lowest empty slot and exactly the lowest free clusters in ascending order, and finds no slot exactly when the table is full |
| FatOps.ApplyValues | src/fat32.c:88-94 | writes to different clusters leave exactly the written bytes there and all other clusters as they were |
| FatTree.DirIsReached | src/fat32.c:31-36 | every directory of the shape is reached from the root by a path as long as it is deep |
| FatTree.ReachableIsDir | src/fat32.c:195-202 | a cluster is a directory of the shape exactly when some path of live slots leads to it |
| FatTree.UnreachableChange | src/fat32.c:208-230 | changes outside the reachable part leave the node at every path as it was |
| FatTree.GrownTree | src/fat32.c:189-232 | adding an entry changes the node at exactly one place of the tree |
| FatTree.ShrunkTree | src/fat32.c:269-272 | clearing a file's entry removes the node at exactly one place of the tree |
| FatAtomic.WriteIsAtomic | src/fat32.c:208-232 | after every prefix of the disk writes of a write the volume is sound and shows exactly the old tree, or, after the last one, the old tree with the requested node; only the chosen clusters can be leaked meanwhile and none at the end |
| FatAtomic.CommitNode | src/fat32.c:189-232 | the new slot holds the requested directory, or the file with exactly the given data in whole clusters |
| FatAtomic.DoomedIsTheChain | src/fat32.c:274-289 | the clusters delete collects in 16-bit arithmetic are exactly the chain of the file |
| FatAtomic.DeleteIsSafe | src/fat32.c:281-292 | on a sound volume delete never follows the FAT out of its 512 cells |
| FatAtomic.DeleteIsAtomic | src/fat32.c:269-294 | after every prefix of the disk writes of a file delete the volume is sound and shows the old tree or the old tree without the file; the file's clusters, and only they, are leaked in between |
| FatFiles.InsertKeepsFilesFirst | src/fat32.c:165-183 | filling the lowest empty slot with a directory, or with a file under a fresh key, keeps the rule that only live directories precede a live file under its key |
| FatFiles.InsertKeepsFirstMatch | src/fat32.c:165-208 | filling the lowest empty slot keeps the stricter rule that no earlier slot, live or not, carries a live slot's key, if and only if the new key, for a directory with the stale extension, is carried by no live entry |
| FatFiles.ReadIsExact | src/fat32.c:116-141 | the exact outcome of reading a stored file: its clusters, unless the buffer is too small or a directory entry in a lower slot, the two reserved ones included, carries the key |
| FatFiles.ReadOfUnknownKey | src/fat32.c:122-140 | a key in no slot is reported as not found |
| FatFiles.FilesGrown | src/fat32.c:189-232 | a new file adds its key to the file map and a new directory changes nothing in it |
| FatFiles.FilesShrunk | src/fat32.c:269-272 | clearing a file's entry removes exactly its key from the file map |
| FatLimits.WriteKeepsSoundIff | src/fat32.c:160-187 | an accepted write leaves a sound volume if and only if at least the required number of clusters was free |
| FatLimits.CrowdedWriteDoesDamage | src/fat32.c:166-178 | a concrete disk with one free cluster on which a two-cluster write is accepted, leaves no sound volume and is not undone by a delete |
| FatLimits.AcceptedWrite | src/fat32.c:160-232 | for every accepted write, however few clusters are free: each proper prefix of its disk writes shows exactly the old tree and is sound, and the complete write is sound if and only if enough clusters were free |
| FatLimits.WriteThenDelete | src/fat32.c:217-294 | over all accepted file writes: deleting the file at once restores the FAT cell by cell, in the cache and on disk, if and only if enough clusters were free and no live directory of the same name, the parent entry included, lies in a lower slot |
| FatLimits.DirectoryStopsDelete | src/fat32.c:241-248 | a live directory of the same name in a lower slot makes the delete of the new file take the directory branch |
| FatLimits.CrowdedDeleteEscapes | src/fat32.c:281-292 | after a write with too few free clusters the delete follows the new chain out of the 512 cells |
| FatRuns.FormatIsWellFormed | src/fat32.c:51-64 | a formatted disk carries the signature, an empty root, 509 free clusters, and is well formed |
| FatRuns.FirstWriteIsGood | src/fat32.c:51-187 | on a fresh format every first write into the root that needs at most 509 clusters is within the rules of a run and accepted into slot 2 |
| FatRuns.StepKeepsGood | src/fat32.c:116-295 | every operation, crash or remount keeps soundness, the rule that only directories precede a file under its key, and cache coherence, and only a crash leaks clusters |
| FatRuns.RunKeepsGood | src/fat32.c:81-295 | the same over every run from any good state |
| FatRuns.RunsFromFormat | src/fat32.c:51-86 | from a fresh format every run leaves a sound volume and every crash-free run a well-formed one |
| FatRuns.RunRefinesMap | src/fat32.c:116-295 | over every run the disk stores in every directory exactly the files of an abstract map updated by the accepted calls |
| FatRuns.ReadAfterRun | src/fat32.c:116-141 | at the end of any run read returns exactly the clusters last written under the key, with the exact exceptions |
| FatRuns.StepKeepsFirstMatchIff | src/fat32.c:165-208 | an operation keeps the stricter first-match rule if and only if it does not create a directory whose name and stale extension are a live key |
| FatRuns.RunKeepsFirstMatch | src/fat32.c:165-208 | over every run without such a creation the first slot carrying a live entry's key is its own in every directory |
| FatHiding.MkdirKeepsReadIff | src/fat32.c:196-208 | after an accepted creation of a directory every stored file is still stored, and reads as before if and only if it was hidden already or the new directory does not get its key in a lower slot |
| FatHiding.MkdirHidesAFile | src/fat32.c:122-125 | a concrete disk on which an accepted creation of a directory breaks the first-match rule and turns the read of a file from code 0 to code 1 |
| FatHiding.WriteThenRead | src/fat32.c:116-235 | a file just written reads back exactly as given, in whole clusters, if and only if its key is not that of the directory's own or parent entry |
| FatHiding.ShadowedFromTheStart | src/fat32.c:51-64 | on a fresh disk a file with the root's name and the extension left in its own entry is accepted and then read as a directory |
| FatHiding.ParentNameStopsDelete | src/fat32.c:241-248 | on a fresh disk a file named like the root's parent entry is accepted and its delete takes the directory branch |
| FatHiding.ReadAfterDelete | src/fat32.c:122-135 | reading a file after deleting it stays inside the FAT if and only if the directory's own entry carries the key or the buffer is too small; otherwise the cleared chain leads to cluster 0 and out of the 512 cells |
| FatFormat.CrashInFormat | src/fat32.c:45-86 | after a crash between the three writes of a format and a reboot the volume is sound exactly when nothing or all was written, or the signature alone on a sound disk, or all but the root table over an empty root |
| FatFormat.BlankDiskStaysBroken | src/fat32.c:45-86 | a format of a blank disk cut off after its first or second write is never repaired by later boots |
| FatRuns.WriteCodeIsExact | src/fat32.c:164-187 | a write never replaces a stored file; code 1 means exactly a taken key and, with enough free clusters, -1 exactly a full table |
| FatRuns.DeleteCodeIsExact | src/fat32.c:241-302 | a delete that names no directory succeeds exactly when the map holds the key |
| FatBytes.EntryOffsets | src/header/filesystem/fat32.h:82-99 | every field of a directory entry lies at its offset in the 32 bytes, low byte first |
| FatBytes.WriteRefusesParentIff | src/fat32.c:148-151 | on any disk and for every parent a write returns 2 if and only if bytes 12 and 11 of the parent's cluster are not those of a live directory; no refusal writes to the disk |
| FatBytes.FreshDiskRefusesParent | src/fat32.c:148-151 | a freshly formatted disk refuses every parent above the root whose bytes do not happen to open as a directory, and stays as it is |
| FatBytes.BlankDiskRefusesParent | src/fat32.c:148-151 | the instance: after formatting a blank disk a one-cluster file with parent 5 is refused |
| FatBytes.ChoiceIsExact | src/fat32.c:154-187 | what a write chooses with any number of free clusters: it goes over them once for every empty slot, takes the slot at which it has enough, and -1 exactly when free clusters times empty slots fall short |
| FatBytes.WriteCodeOnAnyDisk | src/fat32.c:143-187 | the code of every write on any disk: 2 for the parent, 1 for a taken key, -1 for too few free clusters and empty slots, 0 otherwise, in this order |
| FatBytes.WriteOrder | src/fat32.c:208-232 | an accepted write stores the chosen clusters in order, each with its own 2048 bytes of the buffer, then the FAT, then the parent |
| FatBytes.ParentAfterWrite | src/fat32.c:189-232 | an accepted write changes only the chosen entry of the parent: name, marks and first cluster, and extension and size only for a file; directories keep those as they were |
| FatBytes.BytesReadBack | src/fat32.c:116-235 | byte i of a file written in a good state is byte i of what read returns |
| FatBytes.ReadCodeIsExact | src/fat32.c:116-141 | on any disk the code of a read is decided by the parent's first entry and the first slot with the key: -1, 2, 1, -1 or 0 |
| FatBytes.ReadFollowsLinks | src/fat32.c:129-136 | on any disk an accepted read returns the clusters linked from the entry's two cluster words up to the end mark |
| FatBytes.DeleteOnAnyDisk | src/fat32.c:237-302 | on any disk a delete finds nothing exactly when no slot from 1 on carries the name as a directory or the key as a file; removing a file changes two bytes of the parent's cluster |
| FatBytes.DeleteFreesLinks | src/fat32.c:270-293 | on any disk a delete clears exactly the cells met from the low cluster word on, each link cut to 16 bits, as many as the size demands |
| FatBytes.FormatBytes | src/fat32.c:51-64 | the bytes of a fresh disk: the signature's ends, three reserved cells and an empty FAT, and the two entries of an empty root |
| Disk.BlockDevice.ReadBlocks | src/external/external-inserter.c:13-21 | exactly the requested blocks are copied out and the rest of the buffer is untouched |
| Disk.BlockDevice.WriteBlocks | src/external/external-inserter.c:23-31 | exactly the requested blocks are replaced and the rest of the image is untouched |
| Disk.BlockDevice.ReadCluster | src/fat32.c:92-94 | the buffer receives one cluster of the image |
| Disk.BlockDevice.WriteCluster | src/fat32.c:88-90 | one cluster of the image is replaced and the write is recorded in order |
| Driver.Fat32Driver.InitDirectoryTable | src/fat32.c:23-43 | the table becomes a new directory's over whatever it held |
| Driver.Fat32Driver.CreateFat32 | src/fat32.c:51-64 | signature, FAT and root table reach the disk in this order and the cache equals the FAT on disk |
| Driver.Fat32Driver.InitializeFilesystem | src/fat32.c:81-86 | formats exactly when the signature is missing and leaves the cache equal to the FAT on disk |
| Driver.Fat32Driver.Read | src/fat32.c:116-141 | returns the code of the read outcome and its clusters in the buffer; the disk is unchanged and the cache reloaded |
| Driver.Fat32Driver.CollectFree | src/fat32.c:168-177 | one pass adds the free clusters found to those already collected, up to the number needed |
| Driver.Fat32Driver.FindSlot | src/fat32.c:165-183 | the search loop finds a taken key, or the slot and clusters of the specification |
| Driver.Fat32Driver.StoreFile | src/fat32.c:217-225 | data clusters are written in order and the cached chain is linked |
| Driver.Fat32Driver.Write | src/fat32.c:143-235 | return code, cached FAT, final image and order of disk writes are those of the specified outcome |
| Driver.Fat32Driver.Delete | src/fat32.c:237-302 | likewise for the file branch of delete, working from the cached FAT |
| Driver.Fat32Driver.FreeChain | src/fat32.c:281-292 | the chain is collected before it is cleared and exactly its cells become free |
| Paging.AllocateKeepsOwned | src/paging.c:115-139 | a frame handed out had no owner, is never frame 0 and now belongs to the entry; 0 is returned exactly when no frame is free; only an overwritten user mapping can lose a frame |
| Paging.FreeKeepsOwned | src/paging.c:141-161 | freeing a user-mapped entry releases exactly its frame and raises the free count by one |
| Paging.CreateKeepsOwned | src/paging.c:56-80 | a new directory maps no user frame, and none is found exactly when all 32 are in use |
| Paging.FreeDirectoryKeepsOwnedIff | src/paging.c:163-172 | giving a directory back keeps frame ownership exactly when it maps no user frame any more |
| Paging.PageRun | src/paging.c:43-172 | over any sequence of allocations into unmapped entries, frees of mapped ones, new directories and releases of empty ones, the used frames are exactly the mapped ones, one entry each, and the free count is the number of clear bits |
| Paging.NoSharedFrames | src/paging.c:115-139 | two different page-directory entries never map the same user frame |
| Paging.Cr3RoundTrip | src/paging.c:83-88 | loading CR3 from a directory address and reading it back gives the address exactly for addresses above the kernel base |
| Context.KernelStack.EnterHandler | src/intsetup.s:5-47 | the pushes and the patched stack pointer build exactly the interrupt frame of the interrupted processor |
| Context.ContextSwitch | src/kernel-entrypoint.s:122-159 | the loads at the named offsets rebuild every register of the saved context |
| Context.SaveRestore | src/interrupt.c:56-65 | saving on trap entry and restoring gives back the processor if and only if the trap came from ring 3 (or the stack pointers agree) and CR3 survives the address conversion |
| KernelRuns.ChoiceIsLive | src/scheduler.c:67-78 | the scheduler always picks a used slot, READY, or slot 0 when it runs alone |
| KernelRuns.CheckMeansOneFrame | src/process.c:33-37 | the memory test before a create holds exactly when one frame is free |
| KernelRuns.TakeKeepsOwned | src/process.c:41-48 | a create past its checks gets a directory and an image frame, a stack frame exactly when two frames were free, and loses the image frame exactly when image and stack lie in one 4 MiB region |
| KernelRuns.CreateIsSafe | src/process.c:41-61 | counting frames, a create never meets a missing directory or a missing slot |
| KernelRuns.NeverTooManyProcesses | src/process.c:21-24 | the process limit is never the reason a create is refused |
| KernelRuns.DestroyIsExact | src/process.c:87-98 | for pid 1 and up destroy succeeds exactly when the pid is in use and clears only that slot |
| KernelRuns.DestroyKeepsIff | src/process.c:87-98 | a destroy keeps the kernel invariant if and only if it names neither slot 0 nor the running slot |
| KernelRuns.StepKeeps | src/scheduler.c:66-88 | every event is handled by defined code and keeps one running slot, the pid and state rules, the frame budget and frame ownership |
| KernelRuns.RunKeeps | src/process.c:33-98 | the same over every run: no NULL directory, no slot index -1, no missing running slot |
| KernelRuns.SuccessesAreBounded | src/process.c:33-98 | over every run at most half as many creates succeed as frames were free at its start, whatever is destroyed in between |
| KernelRuns.TickApproaches | src/scheduler.c:66-78 | a tick brings the scheduler strictly closer to a waiting slot and never past it |
| KernelRuns.BoundedWaiting | src/scheduler.c:66-78 | a used slot that is not destroyed runs after at most its cyclic distance in ticks, and the slots dispatched until then are all different |
| Isolation.CreateKeepsAddressedIff | src/process.c:50-84 | a create keeps CR3 on the running process's directory unless it passes its checks with two frames free and its executable cannot be read, and then never |
| Isolation.FailedReadLosesCr3 | src/process.c:50-56 | the failing input: right after boot a create whose executable cannot be read leaves CR3 on another directory than the running process's |
| KernelDisk.CreateFromDiskKeepsAddressedIff | src/process.c:50-56 | with the executable read from a given disk, CR3 goes wrong exactly when the checks pass, two frames are free and the first slot with the key is no readable file |
| KernelDisk.StoredIsReadableIff | src/fat32.c:122-137 | for a stored executable that means: no directory entry hides its key and it fits the buffer |
| Isolation.RunKeepsAddressed | src/scheduler.c:83-84 | in runs without that case every process has a directory of its own and CR3 names the running one's whenever user code runs |
| Isolation.DirectoriesKept | src/paging.c:56-80 | no event changes the contents of a directory that is in use |
| Isolation.ContextSurvives | src/scheduler.c:58-88 | a waiting process is dispatched with exactly the context it was left with |
| Isolation.ResumesExactly | src/interrupt.c:56-67 | a process preempted in ring 3 resumes with all registers, eip, eflags, cs and page directory as they were, whatever other processes did |
| Isolation.StartsFresh | src/process.c:59-81 | a created process first runs at its image address with the user stack, flags and selectors set and its own directory |
| Isolation.BootsIff | src/kernel.c:35-60 | boot establishes the kernel invariants if and only if the shell's executable could be read |
| Isolation.BootEstablishes | src/kernel.c:35-60 | with the shell read, boot leaves it running in slot 0, address spaces in order, 28 frames free and none lost |
| Isolation.RunsFromBoot | src/kernel.c:35-60 | from boot with the shell read, over every run, the kernel never goes wrong and keeps every invariant |
| Isolation.AtMostFourteenCreates | src/process.c:33-98 | after boot at most fourteen further creates ever succeed |
| KernelLaws.NewDirectoryMaps | src/paging.c:56-80 | a new directory maps the first 4 MiB and the kernel's at 0x300 to frame 0, supervisor and writable, and nothing else |
| KernelLaws.AllocationMaps | src/paging.c:115-139 | an allocation changes one entry to present, writable, user, 4 MiB and the lowest clear frame, or nothing when all are taken |
| KernelLaws.FreeUnmaps | src/paging.c:141-161 | a free clears one present flag and one bit of the frame map, or changes nothing |
| KernelLaws.Cr3IsPhysical | src/paging.c:174-180 | for every directory CR3 gets its address less 0xC0000000 |
| KernelLaws.RefusedIff | src/process.c:19-40 | in any kernel state: when and in which order a create is refused with 1, 2 or 3, changing nothing |
| KernelLaws.CreateCodeIsExact | src/process.c:19-57 | the code of every create from its inputs and the number of free frames: 2, 3, 5, 4 or 0, with the size limit as 32-bit arithmetic makes it |
| KernelLaws.CreateMapsMemory | src/process.c:39-84 | a successful create takes a free directory and two frames; its directory maps image, stack, kernel and the first 4 MiB and nothing else, and the process records both frames, its name and its directory |
| KernelLaws.DestroyBlanks | src/process.c:87-98 | a destroyed slot is zero in every word and killed, no other slot changes, and no frame or directory comes back |
| KernelLaws.KernelIsAlwaysMapped | src/paging.c:56-80 | from boot, over every run, the boot directory and every directory in use map 0xC0000000 present, writable, supervisor, 4 MiB, to frame 0 |
| KernelLaws.BootInNumbers | src/kernel.c:35-60 | after boot four frames and one directory are taken, the shell's memory is mapped to frames 2 and 3, and the processor is about to run it at address 0 in ring 3 |
| KernelLaws.SavedWords | src/interrupt.c:56-63 | each word of the saved context comes from its place on the stack, the user stack selector is 0x23 and the directory is CR3 above the kernel base |
| KernelCode.Pager.CreateNewPageDirectory | src/paging.c:43-81 | takes the first unused directory, or none, as specified |
| KernelCode.Pager.AllocateUserPageFrame | src/paging.c:115-139 | takes the lowest free frame and maps it, as specified |
| KernelCode.Pager.FreeUserPageFrame | src/paging.c:141-161 | unmaps a present entry and releases its frame, as specified |
| KernelCode.Pager.FreePageDirectory | src/paging.c:163-172 | releases the directory at the address, if there is one |
| KernelCode.KernelState.GetCurrentRunningPcb | src/process.c:10-17 | the first slot in state RUNNING or none |
| KernelCode.KernelState.GetInactiveIndex | src/process.c:100-107 | the first unused slot or -1 |
| KernelCode.KernelState.Destroy | src/process.c:87-98 | the table after a destroy, as specified |
| KernelCode.KernelState.SwitchToNextProcess | src/scheduler.c:66-88 | states, running index and processor after a switch, as specified |
| KernelCode.KernelState.TimerInterrupt | src/interrupt.c:56-67 | from the first pushed word to the last loaded register a timer interrupt is the specified tick |
| KernelCode.KernelState.CreateUserProcess | src/process.c:19-85 | code and kernel state of a create for every outcome, as specified |
| KernelCode.KernelState.KernelSetup | src/kernel.c:35-60 | the boot sequence ends in the specified state, whatever reading the shell returned |
| Paths.NameLeadsTo | src/user-shell.c:99-107 | looking up a directory's name in its parent finds its own slot exactly when no lower live slot carries the name |
| Paths.SplitOfSpell | src/user-shell.c:109-131 | splitting a spelled path at its slashes gives the names back, topmost first |
| Paths.PathRoundTrip | src/cd.c:21-45 | the path printed for a directory other than the root leads back to it from anywhere, provided it and the directories above have valid names that no lower live slot of their parent carries; it fits the parser exactly down to depth 16 |
| Paths.RootPathFails | src/cd.c:27-33 | the root's own path is not found unless a live root entry has an all-zero name, and leads back to the root exactly when the first such entry is the root's own and points at the root, or is its parent entry |
| PathLaws.RelativeRoundTrip | src/cd.c:21-43 | the names from a directory down to one below it, spelled without a leading slash, lead from the first to the second, through addressable directories |
| PathLaws.PathsCompose | src/cd.c:23-43 | a path, a slash and a relative path walk like the path and then the relative path from where it ends; a failure of the first is that of the whole |
| PathLaws.StartOfPath | src/cd.c:23-26 | a leading slash makes a relative path start at cluster 2 |
| PathLaws.LastWordIsLeftOut | src/cd.c:16-20 | without isdir a path ending in one more word leads to the directory that is to hold that word |
| PathLaws.OneWord | src/cd.c:27-43 | one word is decided by the first live slot whose eight name bytes are its own: not found, a file, or the cluster it leads to |
| Naming.RootPathOnFreshDisk | src/cd.c:27-33 | on a fresh disk with a named root the path of the root is not found |
| Naming.NewDirectoryIsFoundIff | src/user-shell.c:99-107 | a directory just created is found by its name in its own slot if and only if no lower live slot, the two reserved ones included, carries the name |
| Naming.TwinDirectories | src/fat32.c:180-208 | on a fresh disk two directories of one name can be created, because write compares extensions too, and the walk never finds the second |
| Naming.DotDotLeadsUpIff | src/fat32.c:31-36 | from a directory just created the word .. leads to its parent if and only if the five name bytes that the three written ones leave were zero; else it finds nothing |
| Naming.DotDotInFreshRoot | src/fat32.c:31-36 | in the root of a fresh disk .. stays in the root under the same condition |
| Find.DepthIsBounded | src/user-shell.c:59-64 | a sound tree is at most 509 deep, so the walk up and the search down end |
| Find.HitsAreMatches | src/find.c:34-64 | a path is reported exactly when it leads to a live entry with the name |
| Find.HitsInOrder | src/find.c:34-64 | the reports come in strict depth-first order |
| Find.SearchIsExact | src/find.c:29-64 | the search from the root reports every path at which the tree holds the name, only those, each once |
| Find.TranscriptUnder | src/find.c:37-50 | what is printed below a subdirectory is what its own search prints under the longer prefix |
| Reports.ReportIsPath | src/find.c:66-71 | a directory is reported as the prompt spells its path, a slash and a line end; a file as that line of its directory, in the root a slash and a line end, followed by its name |
| Reports.ReportedPathLeadsBack | src/find.c:37-43 | cd on a reported directory's line without its last slash and line end leads to that directory |
| Reports.OneReport | src/find.c:34-64 | the reports are printed one after the other |
| Shell.UserShell.PrintDir | src/user-shell.c:47-74 | prints exactly the path of the current directory and the prompt sign |
| Shell.UserShell.FindDirEntryIndex | src/user-shell.c:99-107 | the first live slot with the eight-byte name, or -1 |
| Shell.UserShell.ParsePath | src/user-shell.c:109-131 | the buffer holds exactly the words of the path, zero padded |
| Shell.UserShell.Cd | src/cd.c:5-45 | code, directory reached or kept, and table left in the buffer for every outcome of the walk |
| Shell.UserShell.FindCommand | src/find.c:6-27 | prints exactly the reports of the search, or one of its two messages |
| Shell.UserShell.FindHelper | src/find.c:29-64 | prints exactly the reports below a directory and restores the shared table and the path prefix |
| Shell.UserShell.PrintPathFromList | src/find.c:66-71 | prints each row followed by a slash, then a line end |
| TerminalLog.BlankFromCursor | src/framebuffer.c:61-112 | for every character stream the cursor stays on the screen and every cell at or after it is blank |
| TerminalLog.TypeThenErase | src/framebuffer.c:81-110 | a printable character and a backspace restore screen and cursor exactly when the character did not scroll |
| TerminalLog.StreamsJoin | src/framebuffer.c:115-122 | consecutive outputs are one stream, with clock processes starting and ending in between |
| TerminalLog.ShowsLastLines | src/framebuffer.c:37-80 | without backspaces the screen shows the last 25 lines of the log, whenever clock processes come and go |
| TerminalLog.TextConserved | src/framebuffer.c:61-112 | without backspaces and clock the log holds exactly the printable characters typed, in order |
| TerminalLog.WrapsAtEighty | src/framebuffer.c:98-107 | plain text is cut into rows of exactly 80 characters |
| TerminalLaws.NewlineSeparates | src/framebuffer.c:63-69 | without backspaces and clock the lines of two texts with a newline between are the lines of the first followed by the lines of the second |
| TerminalLaws.PlaceOfEach | src/framebuffer.c:61-112 | every character of a text of printable characters and newlines stands in its computed row and column, and the cursor behind the last |
| TerminalLaws.TabIsFourBlanks | src/framebuffer.c:70-80 | a tab is four blank cells before column 76 and a new line from there on |
| TerminalLaws.BackspaceTakes | src/framebuffer.c:81-96 | a backspace takes one cell within a line, nothing in the top left corner, and a whole blank line above |
| TerminalLaws.BackspaceGoesUp | src/framebuffer.c:81-96 | at the start of a line it takes the line and the last visible character of the line above with the blanks behind it |
| TerminalLaws.NewlineThenErase | src/framebuffer.c:63-96 | a newline taken back at once costs the last visible character before it |
| TerminalLaws.ScrollMovesUp | src/framebuffer.c:37-59 | on the bottom row every cell moves up one row, and a clock process costs the last eight columns of the row that moved |
| Terminal.ClockAmong | src/framebuffer.c:41-53 | a clock runs exactly when some process name begins with the letters of clock and a zero |
| Terminal.Framebuffer.CopyUp | src/stdlib/string.c:12-18 | the overlapping forward copy moves every byte one row up as it was before |
| Terminal.Framebuffer.GoScroll | src/framebuffer.c:37-59 | the rows move up, the last is blank, and the clock's cells are wiped exactly when a clock process exists |
| Terminal.Framebuffer.PutsChar | src/framebuffer.c:61-112 | after any character the screen shows the log after that character and the cursor is at its end |
| Terminal.Framebuffer.Erase | src/framebuffer.c:81-96 | a backspace removes exactly one cell, going up to the last visible character at the start of a row |
| Terminal.Framebuffer.Puts | src/framebuffer.c:115-122 | a string is shown up to its count or first zero |

## Left out

- Driver.Fat32Driver.Delete: the branch that removes a directory takes its cluster number from an uninitialised local (src/fat32.c:248-249); the method stops where that branch would begin, and runs do not delete directories.
- Driver.Fat32Driver.Read: an entry whose chain never reaches the end mark is outside its precondition, and outside runs; FatHiding.ReadAfterDelete says exactly when a deleted file is such an entry, where the source goes on to cluster 0 and indexes the FAT outside its cells.
- FatRuns.RunRefinesMap: runs contain no deletes that stop at a directory and no reads whose chain does not end, for these two reasons.
- Driver.Fat32Driver.FreeChain: a chain that leaves the 512 cells is outside its precondition; FatAtomic.DeleteIsSafe and FatLimits.CrowdedDeleteEscapes say when that happens.
- FatRuns.StepKeepsGood: crashes inside writes and deletes only, FatFormat.CrashInFormat treats the format; each cluster write is atomic.
- FatAtomic.WriteIsAtomic: requires enough free clusters, as CommitNode does; FatLimits.AcceptedWrite covers every accepted write and shows the requirement necessary.
- FatRuns.RunKeepsGood: an accepted write in a run has enough free clusters; FatLimits.WriteKeepsSoundIff shows that this is necessary.
- FatRuns.RunKeepsFirstMatch: excludes colliding directories; FatRuns.StepKeepsFirstMatchIff shows that this is necessary for the stricter rule, which RunRefinesMap and ReadAfterRun do not need.
- Paths.PathRoundTrip: requires addressable names; Paths.NameLeadsTo and Naming.NewDirectoryIsFoundIff say exactly when one step finds its directory, and Naming.TwinDirectories shows one that is not found.
- Isolation.ResumesExactly: the contents of physical memory are not modelled; isolation is about registers, page directories and frame mappings.
- Isolation.RunKeepsAddressed: excludes creates whose executable cannot be read; Isolation.CreateKeepsAddressedIff shows that each of them leaves CR3 wrong.
- Isolation.RunsFromBoot: the shell's executable is readable; Isolation.BootsIff shows that this is necessary.
- KernelRuns.RunKeeps: self-termination and destroying slot 0 are excluded; KernelRuns.DestroyKeepsIff shows that they break the invariant.
- Shell.UserShell.Cd: requires that the walk reads no cluster beyond the disk; slot 0 of a table has no cluster number of its own, so `cd` by a directory's own name may ask for any.
- Shell.UserShell.PrintDir: requires a current directory at most 32 deep, the rows of its name buffer, as ParsePath requires words that fit its 16 by 10 buffer; the source checks neither.
- Shell.UserShell.FindCommand: requires a tree at most 14 deep, the depth of the 15-row path buffer; the unused `visited` array is omitted.
- Terminal.Framebuffer.PutsChar: colours, the hardware cursor and direct screen writes by system call 14 are not part of this model.
- `read_directory` (src/fat32.c:96-114): its name test is inverted, so it does not do what its header promises.
- The shell's own linked copy of the driver (makefile:82): two cached FATs over one disk; the model has one driver.
- Line parsing and the commands `cp`, `mv`, `cat`, `ls`, `mkdir`, `rm`, `exec`, `ps`, `kill`: plumbing around the modelled operations.
- Keyboard, clock chip, disk ports, GDT, IDT, interrupt-controller and timer setup, TLB flushes: device I/O and hardware constants.
