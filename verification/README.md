# 64OS in Dafny

A model of the parts of the 64OS kernel that carry its hardest invariants, with proofs of
what those parts promise. `dafny verify dfyconfig.toml` checks all of it.

| files | models | main results |
|---|---|---|
| `Raster` | line and circle drawing | the integer loops draw the lines and circles of real geometry |
| `Memmove` | `memmove` | a copy in bytes and words is the simultaneous copy, for every overlap |
| `SchedModel`, `SchedEffects`, `SchedFairness`, `Sched` | the ring of tasks, the zombie list, the timer interrupt | over every run no task is lost or freed twice; round robin |
| `PageWalk`, `AddressSpace`, `HugePages`, `PageRights`, `Descent`, `PageRanges`, `PageTeardown`, `UserRoot`, `SpaceViews`, `UserSpaces`, `Paging` | four-level page tables | mapping calls are updates of a flat map and of the flags of the entries, and on any root what the processor finds and allows; teardown gives back all that creation took, once; over every run address spaces are isolated from each other |
| `Fat32Table`, `Fat32Alloc` | the FAT, the search for free clusters, the free count | over every run the free count moves with the table |
| `Fat32Name`, `Fat32DirModel`, `Fat32Files`, `Fat32Dir` | 8.3 names, directory clusters, create, unlink, rename | over every run a directory is a finite map, and each call succeeds exactly when that map and the room left say so |
| `ExFatModel`, `ExFatFiles`, `ExFat` | reading and writing files through FAT chains | what is written is read back exactly when a stated condition holds; under it, over every run, each file is a byte sequence |
| `PrintfModel`, `PrintfFields`, `PrintfFormat`, `Printf` | `vsnprintf` | the buffer and the return value, for every format string and size; what the text of each field means, for every format string that can be written |
| `Common`, `Chains` | sequences; chains of clusters, their contents and the count of free ones, for both file systems | |

Each imperative part is a class or a method over arrays that does what the C code does, step by
step. Its contract ties the new state to a function of the old one, and the lemmas beside it say
what that function means:

- The scheduler keeps linked `Task` objects. Its ghost field `model` is the ring, the zombie list
  and the log of freed tasks as sequences of pids, and `Valid()` says that the links and the model
  agree.
- Memory is a sequence of 512-entry tables and a set of free frames. `Node(m, root, path)` is where
  the driver's walk leads; `Mapping(m, root)` is the map from page numbers to frames that an address
  space stands for, and `TreeFlags(m, root)` the flags of its entries, by their paths; `Access` is
  what the processor allows for a page: user and writable if every entry on the way says so, and
  the flags of the last one. `Space` says that the tables below a root form a tree of known pages.
- A FAT volume is an array of links and a sequence of clusters. A FAT32 directory is the map from
  names to entries that its slots stand for; an exFAT file is the concatenation of the clusters on
  its chain.

Integers are unbounded; widths and wrap-around are written out where the code meets them (64-bit
addresses in `AddressSpace`, the 32-bit free count in `Fat32Table`, the `int` width and return value
in `PrintfModel`, the 32-bit values of the line and circle loops in `Raster`).

## Model

| member | source | states |
|---|---|---|
| Raster.DrawLine | drivers/fb/fbprim.c:286-308 | puts exactly the ideal line, in order: one pixel per step along the longer side, each the one nearest to the true line |
| Raster.IdealPixelIsUnique | drivers/fb/fbprim.c:286-308 | the reference definition of pixel k has one solution, given in closed form by rounded division |
| Raster.IdealPixelWithinHalf | drivers/fb/fbprim.c:286-308 | every pixel of the line is within half a pixel of the true line, by the cross product |
| Raster.CloseIsNearest | drivers/fb/fbprim.c:286-308 | the bound that the loop keeps on its error holds of exactly one minor step count, the rounded quotient |
| Raster.DriftIsCrossProduct | drivers/fb/fbprim.c:293-306 | the sum of all additions to `err` is the cross product of the offset and the direction |
| Raster.LineStep | drivers/fb/fbprim.c:299-306 | one turn always takes the major step, takes the minor step when needed, keeps the error bound, and no 32-bit value wraps |
| Raster.LineEnds | drivers/fb/fbprim.c:286-308 | the line starts at one end point and reaches the other at the last pixel and not before |
| Raster.LineIsConnected | drivers/fb/fbprim.c:286-308 | each pixel is a neighbour of the one before it |
| Raster.IdealLineEndpoints | drivers/fb/fbprim.c:286-308 | the line stays in the bounding box of its end points |
| Raster.DrawCircle | drivers/fb/fbprim.c:149-180 | a pixel is put exactly when its offsets, whatever their signs and order, are those of a pixel of one octant, whose rows are all on the circle; four calls, and eight for each further column |
| Raster.CircleIsExact | drivers/fb/fbprim.c:149-180 | membership in the sequence of calls, both ways: all eight octants are drawn, and nothing else |
| Raster.CircleIsSymmetric | drivers/fb/fbprim.c:149-180 | the circle is symmetric in both axes and in the diagonal |
| Raster.CircleColumns | drivers/fb/fbprim.c:149-180 | every column of the octant has its pixel above and its pixel below the centre, on both sides |
| Raster.CircleStep | drivers/fb/fbprim.c:160-180 | one turn keeps the relation between `f`, `ddF_x`, `ddF_y`, the position and the deviation from the circle |
| Raster.DecisionVariable | drivers/fb/fbprim.c:160-180 | `f` in closed form; it is negative exactly when the midpoint below is inside the circle |
| Raster.InvIsOnCircle | drivers/fb/fbprim.c:160-180 | the bounds that the loop keeps place the pixel nearest to the circle |
| Raster.CirclePixelsNear | drivers/fb/fbprim.c:149-180 | every pixel put, in all octants, is off the circle by at most the larger of its offsets |
| Memmove.MemMove | libk/string.c:160-221 | for every overlap the destination gets the source's original bytes, nothing else changes, the destination is returned |
| Memmove.CopyForward | libk/string.c:168-192 | bytes to alignment, words, bytes: the simultaneous copy when the destination is below the source |
| Memmove.CopyBackward | libk/string.c:193-219 | the same from the end downwards when the destination is above the source |
| Memmove.ForwardChunk | libk/string.c:168-192 | a further chunk upwards never overwrites bytes still to be read |
| Memmove.BackwardChunk | libk/string.c:193-219 | a further chunk downwards never overwrites bytes still to be read |
| Memmove.IsMovedIsSplice | libk/string.c:160-221 | a simultaneous copy is a splice of the old memory |
| SchedModel.StepKeepsInv | kernel/sched.c:141-489 | every call and every interrupt keeps the invariant: ring with init on it, each task in one place, states and current task agree |
| SchedModel.RunKeepsInv | kernel/sched.c:141-489 | the same over every run |
| SchedModel.NoTaskLostOrFreedTwice | kernel/sched.c:141-489 | from boot, over every run, every pid handed out is in exactly one of ring, zombie list and freed log, once |
| SchedModel.ConservedIsDisjoint | kernel/sched.c:298-388 | that count of one means: no list has duplicates, no two lists overlap, and none is missing |
| SchedModel.OneRunningAfterTick | kernel/sched.c:251-294 | after a tick a ring task is RUNNING exactly when it is the current one, and a rescheduling tick leaves one current |
| SchedModel.GoneForever | kernel/sched.c:234-294 | once an exited task has been switched away from, no later run makes it current |
| SchedModel.ExitedIsSwitchedAway | kernel/sched.c:251-294 | the next rescheduling tick switches away from an exited task |
| SchedModel.KillAllLeavesInit | kernel/sched.c:614-657 | after kill_all_tasks the ring is init alone |
| SchedModel.PickFails | kernel/sched.c:234-249 | pick_next finds nothing exactly when no ring task can run |
| SchedModel.TickPicks | kernel/sched.c:251-294 | a rescheduling tick finds a runnable ring task whenever there is one |
| SchedEffects.CreateEffect | kernel/sched.c:165-229 | a fresh pid behind the others on the ring, READY; nothing else changes |
| SchedEffects.ReapEffect | kernel/sched.c:372-388 | all zombies are freed, in their order; ring, states and current task stay |
| SchedEffects.StopEffect | kernel/sched.c:416-465 | the old zombies are freed; a pid not on the ring changes no more; the current task leaves the ring and becomes the only zombie; any other task leaves the ring and is freed; all other tasks keep their order and state |
| SchedEffects.ExitEffect | kernel/sched.c:467-489 | the caller leaves the ring and becomes the only zombie; init and the boot context change nothing but the zombie list |
| SchedEffects.KillAllEffect | kernel/sched.c:614-657 | init alone is left, RUNNING and current, and every other pid handed out is freed |
| SchedEffects.TickEffect | kernel/sched.c:251-294 | without a reschedule the current task stays; the one that is switched to is RUNNING, the one switched from is READY again unless it has exited, no other state and no list changes |
| SchedFairness.TickRotatesQueue | kernel/sched.c:234-294 | a rescheduling tick runs the head of the queue of runnable tasks and moves it to the end |
| SchedFairness.RoundRobin | kernel/sched.c:234-294 | tick i of any number runs task i, modulo their number, of the queue at the start |
| SchedFairness.OneRound | kernel/sched.c:234-294 | the trace of one round is the queue itself |
| SchedFairness.OnceARound | kernel/sched.c:234-294 | in one round each runnable task is made current exactly once and no other is |
| Sched.Scheduler.constructor | kernel/sched.c:141-160 | the ring is init alone |
| Sched.Scheduler.TaskCreate | kernel/sched.c:165-229 | the new pid goes to the tail of the ring, and links and model still agree |
| Sched.Scheduler.PickNext | kernel/sched.c:234-249 | the first ring task after the current one that can run, or null exactly when there is none |
| Sched.Scheduler.ScheduleFromIsr | kernel/sched.c:251-294 | one interrupt is the tick of the model, first interrupt included |
| Sched.Scheduler.AddToZombieList | kernel/sched.c:298-304 | the zombie list gets a new head |
| Sched.Scheduler.UnlinkFromRing | kernel/sched.c:306-340 | the ring without the task; the last one is replaced by init, and init alone is kept; with the return code |
| Sched.Scheduler.ReapZombies | kernel/sched.c:372-388 | every zombie is freed once, and taken off the ring first if it is there |
| Sched.Scheduler.TaskStop | kernel/sched.c:416-465 | the named task goes to the zombie list or is freed, with the return code for a pid that is not on the ring |
| Sched.Scheduler.TaskExit | kernel/sched.c:467-489 | the caller leaves the ring for the zombie list with its exit code, and returns only before the first tick or as init |
| Sched.Scheduler.CollectVictims | kernel/sched.c:622-641 | every ring task but init is put on the zombie list |
| Sched.Scheduler.KillAllTasks | kernel/sched.c:614-657 | all tasks but init are freed, and init is current |
| Sched.Scheduler.Run | kernel/sched.c:141-657 | a run of the linked structures is a run of the model |
| Sched.RunFromBoot | kernel/sched.c:141-657 | no run of the linked structures from boot loses a task or frees one twice |
| Paging.PageTables.GetNextLevel | kernel/paging.c:26-47 | on any root: the table under an entry, or an empty one made now from a free page; it panics exactly when a table is to be made and no page is free |
| Paging.PageTables.MapPage | kernel/paging.c:72-92 | on any root: what the processor finds afterwards and what it allows, that the page's entry and the tables made for it carry the flags with present and writable set, that exactly the missing tables are taken (three at most), and exactly when it fails or runs out of pages; without huge entries: the flat map is updated at one page, every other entry keeps its flags, the tables still form a tree, nothing outside the address space changes |
| Paging.PageTables.UnmapPage | kernel/paging.c:112-128 | on any root: the processor finds the page no more, unless the way meets a huge entry or frame 0, and then it finds and allows what it did; without huge entries: the flat map loses one page, its entry is gone, and no other changes |
| Paging.PageTables.MapRange | kernel/paging.c:94-110 | the flat map and the flags are updated at every page of the range, counted with 64-bit wrap-around, and how far it came before a panic |
| Paging.PageTables.UnmapRange | kernel/paging.c:130-140 | the flat map and the flags lose every page of the range |
| Paging.PageTables.PmmAllocPage | kernel/mm/pmm.c:159-214 | a free page, or 0 exactly when there is none |
| Paging.PageTables.StartUserSpace | kernel/paging.c:143-160 | the new root has the kernel's upper half, frames and flags, and nothing else, and is an address space of its own |
| Paging.PageTables.CreateUserTask | kernel/paging.c:143-172 | the kernel's upper half and the user's memory mapped onto itself, every page of which user mode may use and write; its tables are the kernel's shared ones and the pages taken |
| Paging.PageTables.DestroyUserTask | kernel/paging.c:174-209 | the four nested loops pass the listed pages to the allocator in that order, and those it knows are free afterwards |
| Paging.PageTables.CreateThenDestroy | kernel/paging.c:143-209 | after creation and teardown the free pages are those that were free before and the pages of the user that the allocator knows; the tables of the address space and the user's pages are given back, each once; no page that was not free has changed |
| Paging.PageTables.RunUsers | kernel/paging.c:72-172 | over every run of creations, and of maps and unmaps in user halves, each address space has the kernel's half and the pages that were mapped in it itself, in the frames and with the rights that follow from its own calls, whatever is done in the others; the kernel's half stays what it was, frames and flags |
| PageWalk.SamePathSamePage | kernel/paging.c:5-18 | two addresses have the same four indices exactly when they are in the same 48-bit page |
| PageWalk.WriteInside | kernel/paging.c:72-128 | writing one entry changes only the walks that go through it |
| PageWalk.GrownIsTree | kernel/paging.c:29-43 | linking in a zeroed page that is not in the tree keeps the tree |
| AddressSpace.GrewByOne | kernel/paging.c:29-43 | a new table moves one page from the free set into the address space, changes no mapping, and for a user page no table of the kernel's half |
| AddressSpace.LeafWrite | kernel/paging.c:72-128 | the write of the last level updates or removes exactly one page of the flat map |
| AddressSpace.RangedPages | kernel/paging.c:94-110 | page v + k of a mapped range is mapped to frame f + k |
| AddressSpace.RangedElsewhere | kernel/paging.c:94-110 | pages outside the range keep their mapping |
| AddressSpace.CountPages | kernel/paging.c:94-140 | how many pages the loop visits, in closed form |
| AddressSpace.RangeEndsIff | kernel/paging.c:94-140 | the loop never ends exactly when the end of the range is in the last page of the 64-bit address space |
| AddressSpace.LastByteNeverEnds | kernel/paging.c:94-140 | such a range, of one byte |
| PageTeardown.TeardownIsExact | kernel/paging.c:174-209 | without huge pages and sharing, teardown frees every page that a user path leads to, each once, and no other |
| PageTeardown.HugeFrameIsFirst | kernel/paging.c:196-199 | the frame that is freed for a huge entry is the first one of its page exactly when no bit above the address field is set |
| UserRoot.BootRootIsKernelRoot | boot/boot32.asm:118-126 | the root of the boot code meets what creation relies on, whatever its page directories hold |
| UserRoot.FreshRootWalk | kernel/paging.c:143-160 | walks from the new root: none in the user half, the kernel's in the upper half |
| UserRoot.FreshRootIsSpace | kernel/paging.c:143-160 | the new root is an address space whose tables are itself and the shared ones |
| UserRoot.FreshRootMapping | kernel/paging.c:143-160 | the new root maps the upper half of what the kernel maps |
| UserRoot.PrivateSpaceIsUnshared | kernel/paging.c:174-209 | distinct frames that are no tables make an address space that can be torn down exactly |
| UserRoot.CreatedSpaceIsPrivate | kernel/paging.c:143-172 | what creation builds below the kernel's half is such an address space |
| UserRoot.UserTables | kernel/paging.c:143-209 | the user half leads to a table exactly when it was taken for this address space |
| UserRoot.CreatedTaskTeardown | kernel/paging.c:143-209 | teardown frees the tables taken and the user's pages, each once, and none of the tables shared with the kernel |
| HugePages.PlainTranslates | kernel/paging.c:26-47 | without huge entries the processor's translation is the driver's walk |
| HugePages.LinkedKeepsView | kernel/paging.c:29-43 | on any root: making a missing table changes nothing that the processor finds, and one table less is missing |
| HugePages.PartwayNext | kernel/paging.c:26-83 | on any root: each step of the walk goes on, or stops with a panic for lack of pages or at frame 0 |
| HugePages.WritesUnlessHuge | kernel/paging.c:72-128 | on any root: the entry written at the end changes what the processor finds exactly when the way there meets no huge entry |
| HugePages.MetIsFound | kernel/paging.c:26-47 | the processor meets entries down to one that maps the page exactly when it finds the page |
| PageRights.PresentWritableBits | kernel/paging.c:75 | two bits are set, and every other bit is what it was |
| PageRights.AccessByFlags | kernel/paging.c:72-92 | on a way without huge entries the processor goes by the four entries of the driver's walk |
| PageRights.LinkedFlags | kernel/paging.c:29-43 | on any root: a table made now carries the flags, and the entries above it keep theirs |
| PageRights.GrantsUnlessHuge | kernel/paging.c:72-92 | on any root: the page's entry and the tables made for it carry the flags, tables that were there keep theirs, and the processor allows what all four agree on, unless the way meets a huge entry |
| PageRights.GrantedToUser | kernel/paging.c:72-92 | a page mapped with PTE_USER can be used from user mode exactly when every table that was on the way already let the user through; likewise for writing |
| PageRights.MarkedAt | kernel/paging.c:72-92 | entry by entry: the page and the missing tables on its way carry the flags, every other entry is what it was |
| PageRights.GrownFlags | kernel/paging.c:29-43 | in an address space a new table changes the flags of one entry and no other |
| PageRights.LeafFlags | kernel/paging.c:72-128 | the write of the last level changes the flags of one entry and no other |
| HugePages.SpaceIsClear | kernel/paging.c:26-47 | in an address space without huge entries every page can be reached or mapped |
| HugePages.BootRootIsIdentity | boot/boot32.asm:121-158 | the boot root maps every page below 512 GiB to the frame of the same number, by huge entries |
| HugePages.BootRootKeepsIdentity | kernel/mm/heap.c:80-88 | on the boot root a map call that succeeds maps a page below 512 GiB as asked exactly when asked for what is there already |
| HugePages.BootRootFailsAtZero | boot/boot32.asm:146-158 | on the boot root a map call for the first 2 MiB fails: their entry has frame 0 |
| HugePages.BootRootMapsAbove | boot/boot32.asm:118-126 | on the boot root every page from 1 TiB on can be mapped, with three new tables |
| Descent.DescentNext | kernel/paging.c:72-128 | a step of the walk within an address space changes no walk, nothing outside it, and no flags but those of a table made now |
| SpaceViews.AccessIsRights | kernel/paging.c:72-92 | what the processor allows in an address space is what the flags of its entries say |
| SpaceViews.PagesAreSeen | kernel/paging.c:72-92 | the pages of a view are those that the processor finds, in the frames where it finds them and with the rights it gives them |
| SpaceViews.OthersKeepRights | kernel/paging.c:72-128 | mapping or unmapping a page leaves the rights of every other page alone |
| SpaceViews.TablesAreNotSeen | kernel/paging.c:72-92 | tables left behind by a call that panicked change no page and no right |
| SpaceViews.FreshRootFlags | kernel/paging.c:143-160 | a new root has the flags of the kernel's upper half, and no others |
| SpaceViews.UserMemoryAccess | kernel/paging.c:143-172 | user mode may use and write every address of a new task's memory in the user half |
| SpaceViews.BehindKernelTables | kernel/paging.c:72-92 | a page mapped with PTE_USER under tables made for a page without it cannot be used from user mode |
| SpaceViews.SecondPageIsHidden | kernel/paging.c:72-92 | such a pair of pages, the first two of an empty user half |
| UserSpaces.UserChange | kernel/paging.c:72-140 | isolation: a change in the user half of one address space keeps every other one, its mapping and flags and the kernel's upper half |
| UserSpaces.UserCreated | kernel/paging.c:143-172 | a new address space shares only the kernel's tables with the others, which map and allow what they did |
| UserSpaces.BootUsers | boot/boot32.asm:118-126 | the state after boot is one that runs can start from |
| Fat32Table.SearchIsComplete | fs/fat32.c:38-57 | the wrapped search looks at every cluster exactly once, from any hint |
| Fat32Table.ScanIsFirst | fs/fat32.c:38-57 | it finds the free cluster that comes first in its order whenever there is one |
| Fat32Table.TakesFirstFree | fs/fat32.c:38-57 | the cluster taken is the first free one from the hint on, cyclically, or from cluster 2 on when the hint is outside the table; the next hint is the cluster behind it |
| Fat32Table.TakeIsExact | fs/fat32.c:38-57 | it fails exactly when nothing is free and then changes nothing; otherwise one free cluster becomes an end of chain and the counts agree |
| Fat32Table.MeasureDrops | fs/fat32.c:59-67 | releasing ends for every table, cyclic links included |
| Fat32Table.TurnsCount | fs/fat32.c:59-67 | the turns of the loop are the clusters made free, plus one if it meets a free one |
| Fat32Table.ChainIsReleased | fs/fat32.c:59-67 | a well-formed chain is released exactly: its clusters and nothing else, with its length |
| Fat32Table.ReleaseIff | fs/fat32.c:59-67 | the free count stays in step exactly when what is released is a well-formed chain |
| Fat32Table.ReleaseIntoFree | fs/fat32.c:59-67 | a chain that runs into a free cluster: three are counted, two are free |
| Fat32Table.TookOne | fs/fat32.c:69-87 | one more cluster on a chain being taken |
| Fat32Table.TookKeepsDrift | fs/fat32.c:69-87 | taking a chain keeps the free count in step with the table |
| Fat32Table.GiveBack | fs/fat32.c:59-87 | taking a chain and releasing it gives back the table and the free count |
| Fat32Table.ReleasedInUse | fs/fat32.c:59-67 | releasing one chain in use keeps every other |
| Fat32Alloc.Allocator.Rebuild | fs/fat32.c:954-965 | counting at mount time gives the number of free entries |
| Fat32Alloc.Allocator.AllocCluster | fs/fat32.c:38-57 | table, count, hint and result are those of the specification |
| Fat32Alloc.Allocator.FreeClusterChain | fs/fat32.c:59-67 | table and count are those of the specification, for any table and any start |
| Fat32Alloc.Allocator.AllocClusters | fs/fat32.c:69-87 | all of the clusters, as a new chain, or none and the table as it was, exactly when too few are free |
| Fat32Alloc.Allocator.Run | fs/fat32.c:38-87 | over every run of taking and releasing chains the free count equals the number of free entries if it did at the start, and the chains in use stay apart |
| Fat32Name.NameFromEntry | fs/fat32.c:114-129 | the three loops compute the decoding of all eleven bytes |
| Fat32Name.NameToEntry | fs/fat32.c:131-156 | the loops compute the encoding, truncation and upper case included |
| Fat32Name.DecodeEncodeIff | fs/fat32.c:114-156 | decoding the encoding gives back exactly the canonical names |
| Fat32Name.EncodeDecodeIff | fs/fat32.c:114-156 | encoding the decoding gives back exactly the padded upper-case entries |
| Fat32Name.EncodeIsInjective | fs/fat32.c:131-156 | different canonical names have different entries |
| Fat32Name.EncodeIgnoresCase | fs/fat32.c:131-156 | capital and small letters make the same entry, which has no small ones |
| Fat32Name.EncodeSplitsLong | fs/fat32.c:131-156 | a name without a dot in its first nine bytes has the entry of that name with a dot behind the eighth |
| Fat32DirModel.SearchIsExact | fs/fat32.c:190-249 | a match is the one live slot of that name, and the end mark means there is none |
| Fat32DirModel.AddEntryIff | fs/fat32.c:689-805 | writing an entry into the first free slot leaves a map exactly when its name was unused |
| Fat32DirModel.RenameIff | fs/fat32.c:689-805 | marking one name's entry and adding another leaves a map exactly when the other name was unused or is the same |
| Fat32DirModel.RenameToUsedName | fs/fat32.c:689-805 | a directory of two files that is a map no more when one is renamed to the other |
| Fat32DirModel.ExtendWithEntry | fs/fat32.c:502-524 | an entry in a new cluster behind a full directory is an update of the map |
| Fat32DirModel.RemoveEntry | fs/fat32.c:636-683 | marking an entry deleted removes exactly its name |
| Fat32DirModel.UnlinkRemoves | fs/fat32.c:636-683 | marking and releasing together remove the name, free exactly the file's clusters, raise the number of free ones by their number and keep the count in step |
| Fat32DirModel.RenamedInPlace | fs/fat32.c:689-805 | marking and adding under another name is a renaming that keeps first cluster and size |
| Fat32DirModel.MovedAcross | fs/fat32.c:689-805 | the same across two directories: one loses the name, the other gains it |
| Fat32DirModel.EntryAt | fs/fat32.c:190-249 | what the map says of a name is the attribute, first cluster and size in the bytes of the slot that matches it |
| Fat32DirModel.CarriedIs | fs/fat32.c:689-805 | an entry carried to another name is in another slot with the same attribute, first cluster and size bytes |
| Fat32DirModel.MarkedIsFree | fs/fat32.c:723-761 | within one directory the rollback is never reached: the marked slot is free |
| Fat32DirModel.BesideKeeps | fs/fat32.c:464-805 | another directory and its files are untouched |
| Fat32DirModel.NewDirectoryIsOk | fs/fat32.c:572-605 | a new directory, with its dot entries, is one that all operations can be used on |
| Fat32Files.NamesAreSlots | fs/fat32.c:190-249 | a directory has as many names as slots in use |
| Fat32Files.FreeSlotIff | fs/fat32.c:475-500 | a free slot is found exactly when there are fewer names than slots |
| Fat32Files.CreateIsStep | fs/fat32.c:464-630 | a creation that succeeds is the step of the map, of the directory's clusters and of the free clusters |
| Fat32Files.UnlinkIsStep | fs/fat32.c:636-683 | so is an unlink, which gives back the clusters of the file |
| Fat32Files.RenameIsStep | fs/fat32.c:689-805 | so is a renaming, which takes none |
| Fat32Dir.Volume.Lookup | fs/fat32.c:190-249 | a name is found exactly when the map has it, with the place of a slot that matches it and the attribute, first cluster and size that its bytes say |
| Fat32Dir.Volume.Create | fs/fat32.c:464-630 | the map gains an empty file, or nothing changes; it succeeds exactly when the name is unused and there is a free slot or a free cluster, of which it takes one |
| Fat32Dir.Volume.Unlink | fs/fat32.c:636-683 | the map loses the name and its clusters are free; fails exactly when the name is not there, and then changes nothing |
| Fat32Dir.Volume.Rename | fs/fat32.c:689-805 | within one directory the entry moves to the new name; its new slot has the attribute, first cluster and size bytes of the old one; fails exactly when the old name is not there |
| Fat32Dir.Volume.Move | fs/fat32.c:689-805 | across directories, with the same bytes; when the other one is full, disk, table and both directories are what they were |
| Fat32Dir.Volume.Run | fs/fat32.c:464-805 | over every run of create, unlink and rename the directory is the map replayed on the side, each call succeeds exactly when names, slots and free clusters on the side say so, and the free count stays in step |
| ExFatModel.GrowStep | fs/exfat.c:607-637 | a free cluster linked behind the last one is not on the chain and keeps it well formed |
| ExFatModel.GrownKeepsVolume | fs/exfat.c:607-637 | growing one file's chain keeps every other file's chain and keeps all of them apart |
| ExFatModel.ClustersNeeded | fs/exfat.c:587-590 | the number computed is the least that holds the data from its position in the first cluster |
| ExFatModel.CollectIff | fs/exfat.c:605-637 | collecting clusters succeeds exactly when enough are free, and takes that many |
| ExFatModel.ReadBackIff | fs/exfat.c:519-681 | reading the written range gives the data exactly when the write began inside the chain or in the first cluster |
| ExFatModel.WriteUpdates | fs/exfat.c:573-681 | inside the chain a write changes exactly its range of the file's bytes |
| ExFatModel.OtherFilesKept | fs/exfat.c:639-674 | the bytes of every other file are what they were |
| ExFatModel.AppendAtClusterEnd | fs/exfat.c:600-637 | a byte appended to a file that fills its only cluster cannot be read back |
| ExFatModel.FailedWriteKeepsIff | fs/exfat.c:607-637 | a write that runs out of space keeps the file's clusters exactly when it began inside, or there were none, or nothing was free |
| ExFatModel.FailedAppend | fs/exfat.c:607-637 | a failed write after which the file has lost its only cluster |
| ExFatModel.LongerChainReadsSame | fs/exfat.c:519-570 | clusters added behind a file change nothing that can be read |
| ExFatModel.WithSizeFields | fs/exfat.c:664-673 | both length fields read back as the size, and no other byte of the directory cluster changes |
| ExFatFiles.BeginsIsInside | fs/exfat.c:588-603 | a write that begins in the file, or at its end unless that is the end of a cluster, begins inside the chain |
| ExFatFiles.WrittenContent | fs/exfat.c:573-681 | such a write overwrites its range of the byte sequence and appends what is behind the end |
| ExFatFiles.WriteIsStep | fs/exfat.c:573-681 | such a write, successful or not, is the step of all files' byte sequences, lengths and free clusters |
| ExFatFiles.ReadIsStep | fs/exfat.c:519-570 | a read succeeds and returns the slice of the byte sequence |
| ExFat.ExFat.Read | fs/exfat.c:519-570 | the bytes of the range that are below the size and on the chain, and when the call fails |
| ExFat.ExFat.Collect | fs/exfat.c:605-637 | the file's own clusters as far as they reach, then new ones; fails only when nothing is free |
| ExFat.ExFat.PutData | fs/exfat.c:639-658 | whole and partial clusters together overwrite exactly the range |
| ExFat.ExFat.UpdateSize | fs/exfat.c:660-674 | size and directory entry grow with the write and never shrink |
| ExFat.ExFat.Write | fs/exfat.c:573-681 | chains stay well formed and apart on success and on every failure; it succeeds exactly when there are enough free clusters, and takes exactly those it needs; on success the range, the size and the entry, and the low bit of the first FAT entry; on failure no byte changes, every free cluster is taken, and when the old ones stay |
| ExFat.ExFat.WriteThenRead | fs/exfat.c:519-681 | a write followed by a read gives the data exactly when the write began inside the chain or in the first cluster |
| ExFat.ExFat.RunFiles | fs/exfat.c:519-681 | over every run of reads, and of writes that begin inside their files, each file is a byte sequence, and every call succeeds, fails and returns as the byte sequences and the free clusters say |
| PrintfModel.ProducedIsReversed | libk/vsnprintf.c:43-70 | the digits produced from the last to the first are the reverse of the numeral |
| PrintfModel.DigitsStandForNumber | libk/vsnprintf.c:43-70 | the numeral's value is the number, and it has no leading zero unless it is 0 |
| PrintfModel.WordDigits | libk/vsnprintf.c:43-70 | a 64-bit number fits the buffer |
| PrintfModel.CountedIsLength | libk/vsnprintf.c:99-358 | the count is the length of the whole text while that fits, and at least the size otherwise |
| PrintfModel.ReturnTells | libk/vsnprintf.c:350-358 | the returned int is the count exactly when that is below 2^31; for counts below 2^32 it tells truncation exactly when the count is below 2^31 or below the size |
| PrintfModel.HugeWidth | libk/vsnprintf.c:72-97 | a call whose text is cut off and that returns -2^31 |
| PrintfFields.SignedIs | libk/vsnprintf.c:216-230 | the number printed by d and i is the two's-complement value of the argument's low 8, 16, 32 or 64 bits, as the length modifier says |
| PrintfFields.UnsignedIs | libk/vsnprintf.c:289-324 | the number printed by u, x and X is that of the same low bits without a sign |
| PrintfFields.NumTextIsNumber | libk/vsnprintf.c:72-97 | a sign, then filling up to the width, then a numeral without leading zeros whose value is the number |
| PrintfFields.PointerField | libk/vsnprintf.c:326-332 | 0x and sixteen hexadecimal digits whose value is the argument |
| PrintfFields.FieldTextMeans | libk/vsnprintf.c:176-347 | conversion by conversion: numbers with their digits, value, filling and width; strings and characters at their end of the columns with blanks elsewhere; the percent sign and unknown conversions |
| PrintfFields.ReachesWidth | libk/vsnprintf.c:231-238 | the length of a signed field; it reaches its width exactly when the number is not negative or with its sign is not shorter |
| PrintfFields.MinusFortyTwo | libk/vsnprintf.c:231-238 | %5d with -42: four columns |
| PrintfFormat.ParsesField | libk/vsnprintf.c:117-174 | every field that can be written is read back: flags, width, length modifier and conversion, with or without a precision |
| PrintfFormat.WholeRenderMeans | libk/vsnprintf.c:99-348 | the text of a format string written from characters and fields is the texts of its pieces one behind another, each meaning what was written, with the arguments taken in order |
| Printf.ItoaBase | libk/vsnprintf.c:43-70 | the numeral of the number, for both loops and the reversal in place |
| Printf.ReverseInPlace | libk/vsnprintf.c:35-41 | the front of the buffer reversed |
| Printf.Parse | libk/vsnprintf.c:117-174 | flags, width, precision and length modifier, with the width as a 32-bit int |
| Printf.Output.OutNum | libk/vsnprintf.c:72-97 | sign, padding and digits in the order of the code, counted beyond a full buffer |
| Printf.Output.OutAligned | libk/vsnprintf.c:178-214 | text padded left or right, with padding that stops at a full buffer |
| Printf.Output.Format | libk/vsnprintf.c:109-348 | the buffer shows the front of the rendering of the whole format string |
| Printf.VsnPrintf | libk/vsnprintf.c:99-358 | no byte at or behind `size` is written, the buffer ends in NUL and holds the longest front of the text that fits (what that text means: `PrintfFormat.WholeRenderMeans`); what is returned, and that it tells truncation while the count is below 2^31 |

## Findings

Properties that the code does not meet, each with an input and with the exact condition under which
it does.

| property | input | condition |
|---|---|---|
| what `exfat_write` writes can be read back (fs/exfat.c:623-625) | one byte appended to a file of one full cluster: `ExFatModel.AppendAtClusterEnd`. The first new cluster becomes the file's first cluster, and the old chain is no longer the file's | the write begins in a cluster on the chain or in the file's first cluster: `ExFatModel.ReadBackIff`, `ExFat.ExFat.WriteThenRead` |
| an `exfat_write` that fails for lack of space keeps the file (fs/exfat.c:617-625) | two clusters appended to a file of one, when one is free: `ExFatModel.FailedAppend` | it began inside the chain, or the file had no cluster, or none was free: `ExFatModel.FailedWriteKeepsIff`, also in the contract of `ExFat.ExFat.Write` |
| `free_count` follows the table (fs/fat32.c:59-67) | a chain that runs into a free cluster: `Fat32Table.ReleaseIntoFree` | what is released is a well-formed chain: `Fat32Table.ReleaseIff` |
| a directory has each name once after `fat32_rename` (fs/fat32.c:689-805) | `a` renamed to `b` where both exist: `Fat32DirModel.RenameToUsedName`. The new name is never looked up | the new name is unused, or is the old one: `Fat32DirModel.RenameIff`, `Fat32DirModel.AddEntryIff`; `Fat32Dir.Volume.Rename` and `Move` ask for it |
| `paging_map_range` and `paging_unmap_range` end (kernel/paging.c:94-140) | the one byte before the last one of the address space: `AddressSpace.LastByteNeverEnds` | the end of the range is not in the last page: `AddressSpace.RangeEndsIff` |
| `paging_map_page` maps the page (kernel/paging.c:26-92, as kernel/mm/heap.c:86 calls it) | any page below 512 GiB on the boot root, for another frame than its own: `HugePages.BootRootKeepsIdentity` | the call returns success and the way to the page meets no huge entry: the contract of `Paging.PageTables.MapPage`, for any root on which the tables on the way to the page are different pages |
| `paging_map_page` fails only for a null root (kernel/paging.c:77-84) | any page below 2 MiB on the boot root: `HugePages.BootRootFailsAtZero`. A frame number of 0 is taken for a null pointer | the way to the page leads to no frame 0: the contract of `Paging.PageTables.MapPage` |
| a page mapped for the user can be used from user mode (kernel/paging.c:26-92, as kernel/paging.c:227-232 calls it) | the second page of an empty user half, when the first was mapped without `PTE_USER`: `SpaceViews.SecondPageIsHidden`. A table keeps the flags of the call that made it | every table that was on the way carries `PTE_USER`: `PageRights.GrantedToUser`; so for the memory of a new task: `SpaceViews.UserMemoryAccess` |
| a number fills the width of its field (libk/vsnprintf.c:231-238) | `%5d` with -42 gives `- 42`: `PrintfFields.MinusFortyTwo`. The sign is counted twice | the number is not negative, or with its sign is not shorter than the width: `PrintfFields.ReachesWidth` |
| `vsnprintf` returns at least `size` when it cuts off (libk/vsnprintf.c:357) | `a%2147483647d` with 5 and a size of 10: `PrintfModel.HugeWidth` | the count is below 2^31, or below the size (for counts below 2^32): `PrintfModel.ReturnTells`, `Printf.VsnPrintf` |

Code that has nothing to do: the rollback of a renaming within one directory
(`Fat32DirModel.MarkedIsFree`); the repair of the ring at the end of `kill_all_tasks`
(`SchedModel.KillAllLeavesInit`); the teardown branch of `paging_create_user_task`, since
`paging_map_range` fails only for a null root or an empty range, and neither occurs there.

## Left out

- Interrupt masking, the saved registers and stacks of tasks, `utask_create`, `emergency_terminate_all` and `task_stop(0)`; freeing is recorded in a log.
- Sched.Scheduler.TaskCreate: does not model the panics for lack of memory, nor the wrap of the pid counter beyond the largest int.
- Raster.DrawLine: asks that three times the longer side fits 32 bits, beyond which `2 * err` overflows a signed int; clipping and the pixel formats are not modelled.
- Raster.DrawCircle: asks for a radius below 2^30 and a box inside 32-bit coordinates, for the same reason.
- Paging.PageTables.MapPage: asks for flags outside the address field and without `PTE_HUGE`, and that the tables on the way to the page are different pages of memory, and that those under which a table may be made are not free; a huge entry that leads to one of the tables above it, or beyond memory, is not modelled. Neither are the TLB and the translation between virtual and physical pointers.
- Paging.PageTables.GetNextLevel: asks that the table is a page of memory.
- Paging.PageTables.UnmapPage: asks for the same as MapPage.
- Paging.PageTables.PmmAllocPage: hands out any free page; the search in the bitmap and the 32-bit product of page number and page size are not modelled.
- Paging.PageTables.MapRange: for address spaces without huge entries (one page on any root is MapPage), and asks that the end of the range is not in the last page of the 64-bit address space, where the loop does not end (see Findings).
- Paging.PageTables.UnmapRange: the same.
- Paging.PageTables.RunUsers: for user memory and pages below the kernel's half, and for callers that name only address spaces they have; teardown is not one of its calls (see CreateThenDestroy).
- HugePages.BootRootIsIdentity: for the first of the two page-directory-pointer tables of the boot code; the second maps the next 512 GiB from 128 GiB on.
- FAT32 long names, timestamps, `readdir`, reading and writing of file contents, `fat32_format`, and creating or removing sub-directories as operations of a run (a new directory's contents are `Fat32DirModel.NewDirectoryIsOk`).
- Fat32Dir.Volume.Create: for 8.3 names without long-name entries and for regular files; block reads and writes succeed.
- Fat32Dir.Volume.Unlink: for regular files; the code would release a directory's clusters in the same way.
- Fat32Dir.Volume.Run: for callers that unlink and rename regular files only, and rename to unused names only (see Findings).
- Fat32Dir.Volume.Rename: for an unused new name or the old name itself (see Findings).
- Fat32Dir.Volume.Move: for two directories that share no cluster, and an unused new name.
- exFAT directories, the allocation bitmap, name hashes and checksums, `exfat_format`.
- ExFat.ExFat.Read: asks that the size is within 2^32 clusters, since the code truncates the cluster number to 32 bits; block reads succeed.
- ExFat.ExFat.Write: asks for the same of the end of the range, and that the file's directory entry is in another file's cluster.
- ExFat.ExFat.RunFiles: for writes that begin in the file, or at its end unless that is the end of a cluster (see Findings).
- The text of `%f`: the digits of a double are a parameter of the model.
- PrintfFormat.WholeRenderMeans: for widths below 2^31 and for fields whose parts are in the order of the code; what other format strings give is `PrintfModel.Render`.
- Printf.VsnPrintf: the length of a string argument is not wrapped at 2^31, and the difference of width and length is not either.
- Printf.ItoaBase: for bases from 10 to 16, the ones in use.
- The shell, the drivers, the virtual file system layer, the heap and system calls: they would add members of the same kinds or wrap the operations above.
