# Eucalypt kernel core: a verified model

This project models the parts of the Eucalypt kernel whose correctness is hardest to see from the
code, and proves properties of them over all inputs, all runs or all reachable states:

- **Physical frames** (`FrameAllocator`): the frame bitmap refines a set of free frames.
- **Page tables** (`PageTables`, `VirtualPages`, `AddressSpaces`, `AddressSpaceRuns`, `MappedRanges`, `Mapper`):
  the four-level walk refines a translation function; several roots share their upper halves and
  nothing else; ranges and device windows.
- **FAT12** (`FatTable`, `DirectoryEntries`, `FatVolume`, `FatSteps`, `Fat12Driver`, `FailedWrites`,
  `Fat12Runs`, `Fat12Sessions`, `Subdirectories`): every run of file operations refines a map from names
  to contents, and mounting the disk again gives the same map back, as long as no operation breaks the
  map; which ones do, among the failed and the successful ones, is stated exactly.
- **Processes and scheduling** (`Scheduler`, `SchedulerRuns`, `ProcessTable`): safety over every run,
  and a bound on waiting with the exact condition under which it holds.
- **The kernel heap** (`Heap`, `HeapAllocator`, `HeapRegion`): the intrusive list represents the freed
  blocks, and blocks stay disjoint, aligned and accounted for; where the heap is placed.
- **Nodes and descriptors** (`Descriptors`, `DescriptorTables`, `VfsIo`, `RamVfs`): the two tables
  correspond one to one; what is written through a node is what is read back.
- **Double-word arithmetic** (`Products`, `LongLong`): the generic C fallbacks of `longlong.h`.
- **The text console** (`Console`, `ConsoleRing`): ring and dirty flags against an unbounded transcript.

## How the model is built

Code that updates state in place is a class whose methods are proved equal to functions on values
(`Table.HandleTimerInterrupt` against `Scheduler.Tick`, `Allocator.Alloc` against `Heap.Alloc`, and so
on). What the source promises is then proved about those functions, step by step and over whole runs.
A run is a datatype or a sequence of operations, so the theorems quantify over every history.

Conventions used throughout:

- `Basics` holds what several modules share.
- Machine words are natural numbers. Bitwise operations are defined bit by bit in `Bits`. The kernel is
  built with overflow checks, so a sum that would leave its type stops the kernel; the model uses exact
  sums there. Where a narrower type wraps or truncates on purpose, the model does so
  (12-bit table entries, 32-bit node ids and file sizes, the words of `longlong.h`).
- A table is named by the number of its frame, so the direct-map pointer arithmetic disappears.
- The disk is a map from sector numbers to 512-byte sectors; access to a sector outside it fails.
- A place where the source would index out of bounds and panic is an `OutOfBounds` error or a `None`.
- Locks are not modelled: each operation is one atomic step.

## Where the code falls short of the obvious ideal

Each of these is a theorem with the exact condition, stated both ways, and most come with a concrete
failure:

- A file created in FAT12 is found under its name exactly if the name is ASCII, has no space, does not
  end in its dot and does not start with a zero byte, below a *good* name
  (`DirectoryEntries.NameIsShown`, `Fat12Driver.AppendedKeys`; `DirectoryEntries.SpacedNameIsLost` and
  `DirectoryEntries.ZeroNameEnds` are failures). Under any other name that is shown it is found as the
  name its field reads as, and the volume keeps a file map exactly if no other file has that one
  (`Fat12Runs.CreateHoldsIff`; `Fat12Runs.SpacedNameBesideA` is a failure). Under a name that is not
  shown, or past the entry count of the boot sector, the new file is lost and no other one changes.
- The same holds of renaming (`Fat12Runs.RenameHoldsIff`), where a name that is not shown loses the file,
  and one that starts with a zero byte also hides every entry behind it (`Fat12Driver.RenameHides`).
- Freeing a cluster chain panics exactly if the walk leaves the cached table (`FatTable.FreeChainPanicsIff`;
  `FatTable.ShortTablePanics` is a failure).
- The free count changes by the difference of the chain lengths exactly if no cluster of the old chain
  lies above the range the allocator scans (`Fat12Runs.OverwriteFreeCount`, `Fat12Runs.TruncateFreeCount`,
  `Fat12Runs.DeleteFreeCount`; `FatTable.ReservedClusterIsLost` is a failure).
- Overwriting a FAT12 file succeeds exactly if its chain can be freed and the lowest free clusters after
  that are enough and on the disk. A failure never harms another file (`FailedWrites.AbandonedKeepsOthers`).
  For want of clusters it leaves the disk alone, so that the next mount finds the file again, and until
  then the file reads as its first cluster, so as before exactly if it has no more than one cluster of
  data (`FailedWrites.FailedOverwriteReads`). The volume keeps its file map exactly if the file has no
  clusters, or the failure is for want of clusters and the file's first cluster is one the allocator
  scans and holds all of it (`FailedWrites.FailedOverwriteHoldsIff`; `FailedWrites.TwoClustersAreCut` is a
  failure).
- A waiting process gets the processor under timer ticks exactly if the current process is in a state
  from which the scheduler ever switches away (`Scheduler.RunsIffSwitches`). A current process that is
  Ready, because it yielded or was woken or unblocked in place, keeps the processor for good
  (`SchedulerRuns.YieldStarves`).
- A process resumes on a stack of its own unless it is the kernel process and a switch happened when the
  current process had been destroyed since the last dispatch (`SchedulerRuns.SwitchSavesOwnIff`,
  `SchedulerRuns.OnlyKernelLosesStack`; `SchedulerRuns.KernelLosesStack` is a failure).
- A heap allocation has the alignment asked for exactly if the payload of the reused block has, or else
  the payload at the start of the heap (`Heap.AllocAlignment`). On a heap that starts on a page, fresh
  blocks have it exactly if it is at most 8 (`Heap.FreshOnBoundary`; `Heap.Misaligned` and
  `Heap.PagesAreMisaligned` are failures).
- The memory of the heap is not reserved: on every memory map with page-aligned, disjoint regions its
  frames are in the pool of the frame allocator exactly if they lie above the low megabyte
  (`HeapRegion.HeapFramesAreFree`).
- `sbrk` leaves every block below the break exactly if it gives back no more than it got since the last
  fresh block (`Heap.SbrkKeepsBlocksIff`); `Heap.SbrkCanOverlap` is a failure.
- Opening keeps nodes and descriptors in correspondence exactly if the 32-bit id counter yields an id
  that is not reserved and not in use (`Descriptors.OpenKeepsMatchedIff`); `Descriptors.WrappedIdLeaks`
  is a run from boot in which it does not.
- A write through a node leaves the bytes outside it alone exactly if it is not at the start of a
  longer file (`VfsIo.WriteIsSpliceIff`; `VfsIo.StartReplaces` is a failure).
- A write through a node opened for appending appends exactly if the size the node remembers is the size
  of the file, or it writes nothing inside the file (`VfsIo.AppendThroughIff`). A write through one node
  leaves another node on the file with the old size (`VfsIo.SecondNodeIsStale`, `VfsIo.TwoAppenders`).
- A non-usable memory region has all its bytes reserved exactly under the condition of
  `FrameAllocator.ReservedBytesCovered`: its first byte's offset in its page must not push its last
  byte past the frames counted from its length (`FrameAllocator.EndUncovered` is a failure).
- The address read back from a page-table entry is the page of the address stored exactly if the flags
  add no bit to the address field (`PageTables.AddressRoundTrip`; `PageTables.FlagMovesAddress` is a failure).

- A new address space follows the kernel's mappings below a slot of the upper half exactly if the kernel
  had that slot when it was created; below a slot that came later it never sees them
  (`AddressSpaceRuns.NewRootFollowsKernel`).

The source's comments promise unique node ids; the model follows the code, where ids wrap.

## Model

| member | source | states |
|---|---|---|
| `FrameAllocator.Allocator.constructor` | memory/src/frame_allocator.rs:16-85 | After `init` the free frames are exactly those of usable regions, less non-usable regions, the low 1 MiB and the frames of the bitmap itself |
| `FrameAllocator.Allocator.MarkRegionsFree` | memory/src/frame_allocator.rs:48-57 | The first pass frees exactly the whole frames of usable regions |
| `FrameAllocator.Allocator.MarkRegionsUsed` | memory/src/frame_allocator.rs:59-69 | The second pass takes exactly the frames counted for non-usable regions |
| `FrameAllocator.Allocator.MarkFree` | memory/src/frame_allocator.rs:87-96 | Adds one frame to the free set, and nothing for a frame that does not exist |
| `FrameAllocator.Allocator.MarkUsed` | memory/src/frame_allocator.rs:98-107 | Removes one frame from the free set |
| `FrameAllocator.Allocator.Alloc` | memory/src/frame_allocator.rs:109-125 | Returns the least free frame and removes it; fails exactly if no frame is free |
| `FrameAllocator.Allocator.FreeFrame` | memory/src/frame_allocator.rs:131-136 | Gives back the frame of an address |
| `FrameAllocator.MarkFreeAdds` | memory/src/frame_allocator.rs:92-94 | Setting one bit of one word adds one element to the set the bitmap stands for |
| `FrameAllocator.MarkUsedRemoves` | memory/src/frame_allocator.rs:103-105 | Clearing one bit removes one element |
| `FrameAllocator.TrailingZerosIsLowestBit` | memory/src/frame_allocator.rs:114-114 | The trailing-zero count of a non-zero word is its lowest set bit |
| `FrameAllocator.LowestBitIsLeast` | memory/src/frame_allocator.rs:111-121 | The lowest bit of the first non-zero word is the least free frame |
| `FrameAllocator.WordExhausted` | memory/src/frame_allocator.rs:113-117 | A word that is zero, or whose lowest bit lies past the last frame, holds no free frame |
| `FrameAllocator.ReservedBytesCovered` | memory/src/frame_allocator.rs:60-69 | Exactly when every byte of a non-usable region lies in a reserved frame |
| `FrameAllocator.EndUncovered` | memory/src/frame_allocator.rs:60-69 | A two-byte region across a page boundary whose second byte is not reserved |
| `FrameAllocator.FramesAreConserved` | memory/src/frame_allocator.rs:109-136 | In every run of allocations and frees of outstanding frames: free and outstanding frames are disjoint and together the initial pool, no reserved frame is ever out, and a frame handed out was free |
| `PageTables.PresentIsLowBit` | memory/src/vmm.rs:33-35 | An entry is present exactly if it is odd |
| `PageTables.MaskSelectsFrame` | memory/src/vmm.rs:41-43 | The address mask selects the 40-bit frame number |
| `PageTables.SetAddrFields` | memory/src/vmm.rs:37-39 | The frame field of an entry is the frame of the address or-ed with whatever flags reach into it, the twelve bits below it and the bits above it are those of the flags, and it is present exactly if the flags are |
| `PageTables.AddressRoundTrip` | memory/src/vmm.rs:37-43 | Exactly when `get_addr` after `set_addr` gives the page of the address back |
| `PageTables.FlagMovesAddress` | memory/src/vmm.rs:37-43 | Any flag in the address field changes the address read back for an address in frame 0 |
| `PageTables.LeafEntryIsPresent` | memory/src/vmm.rs:113-113 | A leaf entry is present, keeps every flag asked for on both sides of the address field, and names its frame if the flags keep out of the field |
| `PageTables.TableEntryPointsToFrame` | memory/src/vmm.rs:86-86 | A table entry is present and names the frame of the new table |
| `VirtualPages.NumberOfPath` | memory/src/addr.rs:40-54 | The four indices are the base-512 digits of the 36-bit page number |
| `VirtualPages.PathNamesPage` | memory/src/addr.rs:40-54 | Two addresses have the same four indices exactly if they lie in the same page |
| `VirtualPages.IndicesAreFields` | memory/src/addr.rs:40-54 | The indices are the address shifted by 39, 30, 21 and 12 places and masked to nine bits |
| `AddressSpaces.ReachIsLabelled` | memory/src/vmm.rs:99-118 | In a well-formed memory every table reached from a root is known and carries the path to it |
| `AddressSpaces.NoTableReachedTwice` | memory/src/vmm.rs:77-118 | No two paths from one root reach the same table frame |
| `AddressSpaces.LowerHalvesAreDisjoint` | memory/src/vmm.rs:177-193 | A table below the lower half of one root is reached from no other root |
| `AddressSpaces.EnsurePath` | memory/src/vmm.rs:77-110 | Creating the missing tables of a path succeeds exactly if there are enough free frames, uses exactly that many, and changes no translation of any root, also when it fails half way |
| `AddressSpaces.LinkKeepsTranslation` | memory/src/vmm.rs:82-87 | Linking one zeroed table changes no translation of any root |
| `AddressSpaces.MapPageRefines` | memory/src/vmm.rs:99-118 | `map_page` is an update of one page: of the given root and of the roots that share its leaf table; it fails exactly if the missing tables outnumber the free frames, and then changes no translation; roots come to share a table only below one they shared; well-formedness is kept |
| `AddressSpaces.UnmapPageRefines` | memory/src/vmm.rs:120-151 | `unmap_page` removes one page, in every root that shares its leaf table, and returns its address, and fails exactly on an unmapped page |
| `AddressSpaces.SameSlotSameTranslation` | memory/src/vmm.rs:187-189 | Roots with the same entry in a slot translate every page below it alike |
| `AddressSpaces.CreateUserPml4Refines` | memory/src/vmm.rs:177-193 | A new root has no entry in the lower half, the entries of the kernel root in the upper half, translates accordingly, and changes no existing root; it fails exactly if no frame is free |
| `AddressSpaceRuns.StepOnOwnSlot` | memory/src/vmm.rs:99-193 | The effect of one step below a slot of a root whose tables no other root reaches, as an update of a finite map |
| `AddressSpaceRuns.LowerSlotsAreOwn` | memory/src/vmm.rs:177-193 | Every slot of the lower half is such a slot |
| `AddressSpaceRuns.StepKeepsOwnSlot` | memory/src/vmm.rs:99-193 | Such a slot stays one, unless it is an upper slot of the kernel root, which is copied |
| `AddressSpaceRuns.StepKeepsSharedSlot` | memory/src/vmm.rs:99-193 | A slot shared by two roots stays shared |
| `AddressSpaceRuns.RunNeverSharesTables` | memory/src/vmm.rs:77-193 | After any run, different paths from one root reach different tables |
| `AddressSpaceRuns.RunRefinesOwnSlot` | memory/src/vmm.rs:99-193 | After any run a root translates the pages below a slot of its own to exactly its own successful mappings less its own removals |
| `AddressSpaceRuns.RunRefinesMappings` | memory/src/vmm.rs:99-151 | So after any run in the whole lower half |
| `AddressSpaceRuns.RunIsolatesRoots` | memory/src/vmm.rs:99-193 | Operations on other roots never change the lower half of a root |
| `AddressSpaceRuns.RunKeepsSharedSlot` | memory/src/vmm.rs:99-193 | Mappings below a slot that two roots share are seen identically by both after any run |
| `AddressSpaceRuns.StepBelowSharedSlot` | memory/src/vmm.rs:99-193 | The effect of one step below a slot all roots share is the same for every root, whichever root it is made through |
| `AddressSpaceRuns.RunRefinesSharedSlot` | memory/src/vmm.rs:99-193 | After any run, frames taken and freed for data included, every root translates the pages below such a slot to exactly the mappings made through any root less the removals |
| `AddressSpaceRuns.NewRootFollowsKernel` | memory/src/vmm.rs:177-193 | A root created at some point sees, after any later run, the mappings of the kernel below every slot the kernel half had then; below every other slot, upper ones that the kernel gets later included, it shares no table with any root and sees exactly its own mappings |
| `MappedRanges.MapPagesRefines` | memory/src/vmm.rs:158-162 | Mapping pages in order overlays them on the translation function, a proper prefix of them on failure |
| `MappedRanges.MapRangeRefines` | memory/src/vmm.rs:153-165 | `map_range` is that overlay for the pages of the range; in every root the pages outside it, and those whose leaf table it does not share, keep their translation |
| `MappedRanges.UnmapPagesRefines` | memory/src/vmm.rs:171-174 | Unmapping pages removes exactly them, in the given root and in every root that shares their leaf tables |
| `MappedRanges.UnmapRestores` | memory/src/vmm.rs:153-175 | `unmap_range` after `map_range` on a range that was unmapped in the given root restores the translations of every root, also when the mapping failed half way |
| `MappedRanges.RangePagesAreDistinct` | memory/src/vmm.rs:153-161 | The pages of a range of at most 2^36 pages are all different |
| `MappedRanges.MapMmioKeepsWindows` | memory/src/mmio.rs:19-48 | One `map_mmio` call keeps every earlier window intact and adds its own if it succeeds |
| `MappedRanges.WindowsStayIntact` | memory/src/mmio.rs:10-48 | In every run of `map_mmio` calls the successful windows lie in the range, are pairwise disjoint, and every page of each still translates to its own physical page |
| `Mapper.Mapper.ZeroTableAt` | memory/src/vmm.rs:62-66 | Zeroes one table and no other |
| `Mapper.Mapper.GetOrCreateTable` | memory/src/vmm.rs:77-90 | Refines the step on values, frame pool included |
| `Mapper.Mapper.MapPage` | memory/src/vmm.rs:99-118 | Refines `AddressSpaces.MapPage` on the tables and the bitmap |
| `Mapper.Mapper.UnmapPage` | memory/src/vmm.rs:120-151 | Refines `AddressSpaces.UnmapPage` |
| `Mapper.Mapper.MapRange` | memory/src/vmm.rs:153-165 | The loop over pages refines `MappedRanges.MapRange`, stopping at the first failure |
| `Mapper.Mapper.UnmapRange` | memory/src/vmm.rs:167-175 | The loop refines `MappedRanges.UnmapRange` |
| `Mapper.Mapper.CreateUserPml4` | memory/src/vmm.rs:177-193 | The copying loop refines `AddressSpaces.CreateUserPml4` |
| `Mapper.MmioWindow.SetRange` | memory/src/mmio.rs:10-17 | A fresh range with nothing used |
| `Mapper.MmioWindow.MapMmio` | memory/src/mmio.rs:19-48 | Refines the step on values and returns the first address of the new window; the bump pointer moves only on success |
| `FatTable.SetOwn` | fat12/src/lib.rs:286-305 | Reading an entry after writing it gives the value modulo 4096 |
| `FatTable.SetOther` | fat12/src/lib.rs:286-305 | Writing an entry disturbs no other, not even the one that shares a byte with it |
| `FatTable.SetIsUpdate` | fat12/src/lib.rs:286-305 | Writing an entry of the packed table is an update of one element of the sequence of entries |
| `FatTable.MasksAgree` | fat12/src/lib.rs:286-305 | The shifts and masks of the accesses read and write exactly the packed entries |
| `FatTable.FreeChainFreesReachable` | fat12/src/lib.rs:317-325 | On every table, cyclic and cross-linked chains included, freeing a chain ends, frees exactly the clusters its walk reaches and changes no other entry |
| `FatTable.FreeChainPanicsIff` | fat12/src/lib.rs:317-325 | It panics exactly if the walk leaves the cached table |
| `FatTable.ShortTablePanics` | fat12/src/lib.rs:317-325 | The table of a volume with one sector per copy, in which a cluster links past its 341 entries |
| `FatTable.FreeChainFitsTable` | fat12/src/lib.rs:317-325 | It never panics on a table with an entry for every cluster number |
| `FatTable.FreeChainOfChain` | fat12/src/lib.rs:317-325 | On a well-formed chain it frees exactly the clusters of the chain |
| `FatTable.WalkIsUnique` | fat12/src/lib.rs:489-496 | Links that end lead through one list of clusters only |
| `FatTable.ChainBuiltTakes` | fat12/src/lib.rs:407-422 | Building a chain takes exactly its clusters from the free ones |
| `FatTable.ZeroAllGives` | fat12/src/lib.rs:317-329 | Freeing a chain gives back exactly those of its clusters that the allocator counts |
| `FatTable.ReservedClusterIsLost` | fat12/src/lib.rs:307-329 | A one-cluster chain above the range the allocator scans, whose freeing gives back nothing |
| `DirectoryEntries.NameRoundTrip` | fat12/src/lib.rs:118-157 | The stored field reads back as the name, ignoring case, exactly if the name is ASCII, without a space, and not ending in its dot |
| `DirectoryEntries.SpacedNameIsLost` | fat12/src/lib.rs:118-157 | A name with a space that is stored and not found again |
| `DirectoryEntries.SpacedNameClashes` | fat12/src/lib.rs:118-157 | A name with a space that is shown and found as another name |
| `DirectoryEntries.StoredFirst` | fat12/src/lib.rs:138-157 | The stored field is an end mark or a deletion mark exactly if the name starts with that byte |
| `DirectoryEntries.NameIsShown` | fat12/src/lib.rs:118-157 | A record stored under a name is shown exactly if the name starts with neither mark, and found under it exactly if the name is good |
| `DirectoryEntries.ZeroNameEnds` | fat12/src/lib.rs:118-157 | A plain name that is stored as an end mark |
| `DirectoryEntries.RecordRoundTrip` | fat12/src/lib.rs:92-108 | Reading a 32-byte record after writing it gives the entry back |
| `DirectoryEntries.ParseLaidOut` | fat12/src/lib.rs:223-261 | Reading the first records of a block in which entries were laid out lists exactly the visible ones before the first end mark, in order, also when more were laid out than are read |
| `DirectoryEntries.ListedUpToEnd` | fat12/src/lib.rs:235-241 | Nothing behind an end mark is listed |
| `DirectoryEntries.ListedUpdate` | fat12/src/lib.rs:235-241 | Replacing an entry by an end mark hides it and all behind it, by a hidden entry only itself |
| `FatVolume.ClustersAreDisjoint` | fat12/src/lib.rs:187-189 | Different clusters occupy disjoint sectors |
| `FatVolume.OtherClustersKept` | fat12/src/lib.rs:206-221 | Writing some clusters changes the data of no other |
| `FatVolume.SystemAreaKept` | fat12/src/lib.rs:206-221 | Writing clusters changes neither the tables nor the root directory |
| `FatVolume.CopiesInOrder` | fat12/src/lib.rs:263-284 | The copies of the table lie one after the other without overlap |
| `FatVolume.CopiesEnd` | fat12/src/lib.rs:263-284 | The copies end where the root directory starts |
| `FatVolume.ChunksHoldData` | fat12/src/lib.rs:407-422 | The chunks written to the clusters of a chain, read in order and cut to the size, are the data |
| `FatVolume.MountIsRemounted` | fat12/src/lib.rs:425-480 | Mounting the disk of a volume gives its geometry with the first copy of the table |
| `FatVolume.RemountRecovers` | fat12/src/lib.rs:425-480 | With all copies written, mounting the disk gives back the same geometry and the same cache |
| `FatSteps.CreateRefines` | fat12/src/lib.rs:504-523 | A creation step under any name adds one file to the file map, under the name its field reads as, if no other file has that one; all chains stay disjoint, in use and terminated |
| `FatSteps.HiddenRefines` | fat12/src/lib.rs:504-523 | A creation that is not shown changes no file |
| `FatSteps.WriteRefines` | fat12/src/lib.rs:526-552 | An overwriting step replaces the contents of one file |
| `FatSteps.TruncateRefines` | fat12/src/lib.rs:536-543 | Writing nothing empties one file |
| `FatSteps.RenameRefines` | fat12/src/lib.rs:563-582 | A renaming step to any name that is shown moves one file to the name the field reads as, if no other file has that one |
| `FatSteps.RenameLoses` | fat12/src/lib.rs:563-582 | A renaming to a name with the deletion mark loses exactly the file |
| `FatSteps.RenameTruncates` | fat12/src/lib.rs:563-582 | A renaming to a name that starts with a zero byte loses exactly the file and those behind it |
| `FatSteps.DeleteRefines` | fat12/src/lib.rs:585-597 | A deleting step removes one file |
| `Fat12Driver.HarmlessKeeps` | fat12/src/lib.rs:504-523 | An operation that only touched free clusters keeps every file |
| `Fat12Driver.FirstFreeIsUnique` | fat12/src/lib.rs:307-315 | There is only one list of the n lowest free clusters |
| `Fat12Driver.ClusterFitsDisk` | fat12/src/lib.rs:187-189 | On a disk of a given number of sectors a cluster lies exactly if it ends before that number |
| `Fat12Driver.AppendedKeys` | fat12/src/lib.rs:504-523 | An appended entry hides no other and is found under its name exactly if the name is good and the directory was not full |
| `Fat12Driver.RenamedKeys` | fat12/src/lib.rs:563-582 | A renamed entry is found under its new name exactly if that is good |
| `Fat12Driver.RenameHides` | fat12/src/lib.rs:563-582 | Every other file stays listed exactly if the new name does not start with a zero byte or no entry follows |
| `Fat12Driver.Driver.Init` | fat12/src/lib.rs:425-480 | Mounting reads geometry and table or fails, in the order of the checks in the source |
| `Fat12Driver.Driver.ReadCluster` | fat12/src/lib.rs:191-204 | Reads the sectors of one cluster |
| `Fat12Driver.Driver.WriteCluster` | fat12/src/lib.rs:206-221 | Writes one cluster, padded with zeros, and nothing else; succeeds exactly if its sectors are on the disk |
| `Fat12Driver.Driver.ReadRootDirectory` | fat12/src/lib.rs:223-243 | Lists the visible entries up to the end mark |
| `Fat12Driver.Driver.WriteRootDirectory` | fat12/src/lib.rs:245-261 | Rewrites the root directory and nothing else, and fails exactly if the entries exceed its sectors; reading it back lists the visible entries written before the first end mark, as far as the entry count of the boot sector reaches |
| `Fat12Driver.Driver.FlushFat` | fat12/src/lib.rs:263-284 | Makes every copy of the table equal to the cache and writes nothing else |
| `Fat12Driver.Driver.SetFatEntry` | fat12/src/lib.rs:294-305 | Updates one entry of the cached table |
| `Fat12Driver.Driver.AllocateCluster` | fat12/src/lib.rs:307-315 | Takes the lowest free cluster; fails exactly if none is free |
| `Fat12Driver.Driver.FreeClusterChain` | fat12/src/lib.rs:317-325 | The loop computes `FatTable.FreeChain` |
| `Fat12Driver.Driver.FindEntry` | fat12/src/lib.rs:342-349 | Finds the entry with the name, ignoring case, or none exactly if no entry has it |
| `Fat12Driver.Driver.AllocateAndWriteChain` | fat12/src/lib.rs:407-422 | Builds a strictly ascending chain of the lowest free clusters, as many as the data needs, holding the data; fails for want of clusters exactly if too few are free, leaving the disk alone and every free cluster taken, and to write exactly if one of the lowest is not on the disk, leaving the chain built |
| `Fat12Driver.Driver.ReadChain` | fat12/src/lib.rs:489-496 | The loop along any links that end collects the bytes of the clusters visited, or fails at the first one not on the disk or not in the table |
| `Fat12Driver.Driver.ReadFile` | fat12/src/lib.rs:483-501 | Returns those bytes cut to the size, for any links that end; an error exactly if no entry has the name or the reading fails |
| `Fat12Driver.ReadsFileMap` | fat12/src/lib.rs:483-501 | On a volume that holds a file map this is what the map gives, and an error exactly if the name is not in the map |
| `Fat12Driver.Driver.CreateFile` | fat12/src/lib.rs:504-523 | Succeeds exactly if there is something to store, room on the disk, and a name that can be stored, is not taken and fits the directory; then no entry is lost, the file is found under its name exactly if the name is good and the directory not full, it is a creation step if it is shown and changes no file otherwise; all copies are flushed; a failure touches no file; either way the clusters asked for are taken, or all free ones if there are too few |
| `Fat12Driver.Driver.WriteFile` | fat12/src/lib.rs:526-552 | A missing file is an error without effect; else it succeeds exactly if the old chain can be freed and the lowest free clusters then suffice and are on the disk, and is an overwriting step with all copies flushed; a failure has freed the old chain and left what `AllocateAndWriteChain` leaves, for want of clusters not on the disk |
| `Fat12Driver.Driver.AppendFile` | fat12/src/lib.rs:555-560 | A file that cannot be read is an error without effect; else the same with the old contents followed by the new data |
| `Fat12Driver.Driver.RenameFile` | fat12/src/lib.rs:563-582 | Succeeds exactly if the new name is free and can be stored and the old one exists, and is a renaming step for every such name; the file is found under the new name exactly if it is good; a failure changes nothing |
| `Fat12Driver.Driver.DeleteFile` | fat12/src/lib.rs:585-597 | Deletes an existing file with all copies flushed, and fails exactly on a missing one or where freeing panics |
| `FailedWrites.FailedOverwriteReads` | fat12/src/lib.rs:526-552 | A file that could not be overwritten for want of clusters reads as its first cluster, so as before exactly if it has no more than one cluster of data |
| `FailedWrites.AbandonedKeepsOthers` | fat12/src/lib.rs:526-552 | A failed overwriting leaves every other file its entry, its chain and its bytes |
| `FailedWrites.SurvivorRefines` | fat12/src/lib.rs:526-552 | A file whose first cluster is scanned by the allocator and holds all of it keeps its contents |
| `FailedWrites.CutFileHoldsNot` | fat12/src/lib.rs:526-552 | Any other file with clusters has lost its contents: no chain of its entry fits its size |
| `FailedWrites.HalfWrittenHoldsNot` | fat12/src/lib.rs:407-422 | After a failure to write, a file with clusters has no chain on the disk |
| `FailedWrites.FailedOverwriteHoldsIff` | fat12/src/lib.rs:526-552 | Exactly when a failed overwriting leaves a file map, and that it is then the one from before |
| `FailedWrites.OverwriteWithoutRoom` | fat12/src/lib.rs:526-552 | Overwriting without room fails, leaves the disk alone, cuts the file to its first cluster, and keeps the file map exactly if nothing was cut |
| `FailedWrites.TwoClustersAreCut` | fat12/src/lib.rs:526-552 | A volume with one file of two clusters and no other free cluster, on which overwriting it with more leaves half of it |
| `Fat12Runs.EmptyVolumeHolds` | fat12/src/lib.rs:425-480 | A volume with an empty root directory holds the empty file map, and with all copies written so does its disk |
| `Fat12Runs.CreateHoldsIff` | fat12/src/lib.rs:504-523 | A creation that is shown leaves a file map exactly if no file is found under the name its field reads as, and then adds the file under that one |
| `Fat12Runs.SpacedNameBesideA` | fat12/src/lib.rs:504-523 | Creating "A B" beside "A" leaves no file map |
| `Fat12Runs.RenameHoldsIff` | fat12/src/lib.rs:563-582 | A renaming leaves a file map exactly if no other file is found under the name the new field reads as; which one it is, for every new name |
| `Fat12Runs.StepRefines` | fat12/src/lib.rs:504-597 | Every operation of the driver that leaves a file map does to it what it should: it is stored, moved, lost, or left alone as its name says, and a failed one changes nothing |
| `Fat12Runs.RunRefinesFileMap` | fat12/src/lib.rs:504-597 | At the end of every run the volume holds exactly the contents last written under each name |
| `Fat12Runs.RefusedFileOnDisk` | fat12/src/lib.rs:504-523 | A failed operation changes no file as the disk has it, though the cached table differs from the copies and a file may have a shorter chain in it |
| `Fat12Runs.StepStaysSynced` | fat12/src/lib.rs:504-582 | Renames and failed operations, which do not flush, keep memory and disk holding the same files |
| `Fat12Runs.RunSurvivesRemount` | fat12/src/lib.rs:425-597 | After every run, failed operations and renames anywhere in it, mounting the disk again gives the file map of the run |
| `Fat12Runs.FlushedRunIsRecovered` | fat12/src/lib.rs:263-284 | After every run that ends with a creation, a write, an append or a deletion, mounting gives back the volume itself |
| `Fat12Runs.OverwriteFreeCount` | fat12/src/lib.rs:526-552 | The new chain is strictly ascending; the exact change of the free count and when it is the difference of the lengths |
| `Fat12Runs.CreateFreeCount` | fat12/src/lib.rs:504-523 | The free count drops by the length of the new, ascending chain |
| `Fat12Runs.DeleteFreeCount` | fat12/src/lib.rs:585-597 | Exactly when the free count rises by the length of the chain |
| `Fat12Runs.TruncateFreeCount` | fat12/src/lib.rs:536-543 | The same when a file is emptied |
| `Fat12Sessions.Perform` | fat12/src/lib.rs:504-597 | Every call of the driver has its effect, or is refused and changes no file, unless it breaks the file map in one of three ways that can be told before the call and from its result; then no map is left, or one of only some of the files |
| `Fat12Sessions.Session` | fat12/src/lib.rs:425-597 | Any sequence of calls on one driver, failed ones included, until one breaks the file map: the driver holds the contents last written under each name, and so does the disk for the next mount; when a call broke it for want of clusters, the disk holds the files from before that call |
| `Subdirectories.ReadSubdirectory` | fat12/src/lib.rs:351-370 | The loop along any links that end collects the visible records up to the end mark, or fails at the first cluster before it that is not on the disk or not in the table |
| `Subdirectories.AllIsRead` | fat12/src/lib.rs:351-370 | With every cluster on the disk and in the table it lists all visible records up to the end mark |
| `Subdirectories.AllocateBehind` | fat12/src/lib.rs:372-404 | Takes a free cluster and links it behind the last one |
| `Subdirectories.CutChain` | fat12/src/lib.rs:372-404 | Ends the chain at a cluster and frees what followed |
| `Subdirectories.WriteSubdirectory` | fat12/src/lib.rs:372-404 | The chain ends with exactly ceil((n+1)/entries per cluster) clusters, extended from the lowest free ones, kept, or cut with the tail freed, and nothing else changes; it still starts at the same cluster; exactly when it succeeds, lacks clusters, or fails to write; a failure has changed nothing but the chain and clusters that were free |
| `Subdirectories.TouchedKeepsFile` | fat12/src/lib.rs:372-404 | A failure to write a directory disturbs no file |
| `Subdirectories.WrittenKeepsFile` | fat12/src/lib.rs:372-404 | Nor does writing it |
| `Subdirectories.ReadBack` | fat12/src/lib.rs:351-404 | Reading a directory after writing it lists exactly the visible entries written before the first end mark |
| `Subdirectories.RewriteSubdirectory` | fat12/src/lib.rs:351-404 | Writing and then reading from the same first cluster returns that list, and succeeds exactly if chain and free clusters suffice and those needed are on the disk |
| `Scheduler.ScanIsFirst` | sched/src/lib.rs:99-122 | The search returns the first ready process above idle priority going round from the current one, failing that the first ready idle one, and nothing exactly if nothing is ready |
| `Scheduler.TickSlot` | sched/src/lib.rs:43-97 | Everything a tick does to one slot: due sleepers wake; a dispatched process was ready and not current; no other slot is touched |
| `Scheduler.TickCountsDown` | sched/src/lib.rs:72-76 | A tick that does not exhaust the quantum wakes the due sleepers, counts the quantum down and changes nothing else |
| `Scheduler.TickSwitches` | sched/src/lib.rs:77-91 | A switching tick runs a process no further away than any waiting one |
| `Scheduler.BoundedWait` | sched/src/lib.rs:43-122 | With a running current process, a ready process above idle priority at distance d runs within 5*d ticks, whatever sleepers wake meanwhile |
| `Scheduler.NeverSwitches` | sched/src/lib.rs:92-92 | From the other states of the current process no number of ticks ever switches |
| `Scheduler.RunsIffSwitches` | sched/src/lib.rs:64-97 | Exactly when a waiting process gets the processor under timer ticks alone |
| `SchedulerRuns.After` | sched/src/lib.rs:43-211 | In every run any running process is the current one, slot i holds process i, and `current` is in the table |
| `SchedulerRuns.StepKeepsTidy` | process/src/lib.rs:123-218 | Every tick and every call keeps that |
| `SchedulerRuns.CleanUpClears` | process/src/lib.rs:197-208 | Cleaning up clears every terminated slot and no other |
| `SchedulerRuns.HistoryAgrees` | sched/src/lib.rs:142-211 | In every run a process that exited or was destroyed stays so, a sleeper sleeps until its tick, and each saved stack pointer is the one of the last switch or the first one |
| `SchedulerRuns.DispatchIsSafe` | sched/src/lib.rs:142-162 | In every run a dispatched process never exited, its wake tick has come, and it resumes with exactly the stack pointer saved when it was last switched out, or its first one; that is one of its own, unless it is the kernel process and some current process was destroyed |
| `SchedulerRuns.ExecutingIsCurrent` | process/src/lib.rs:163-195 | In every run the process executing is the current one, or it is gone and slot 0 is current |
| `SchedulerRuns.OrphanedIff` | process/src/lib.rs:163-208 | In every run the two differ exactly if the current process, unless it is the kernel process, was destroyed or cleaned up since the last dispatch |
| `SchedulerRuns.SwitchSavesOwnIff` | sched/src/lib.rs:142-162 | A switch saves a stack pointer of the process it is saved for exactly if the current process was not destroyed since the last dispatch; else the kernel process gets that of the destroyed one |
| `SchedulerRuns.OnlyKernelLosesStack` | sched/src/lib.rs:142-162 | In every run every process but the kernel process resumes on a stack of its own |
| `SchedulerRuns.EveryoneResumesOwn` | sched/src/lib.rs:142-162 | In every run that never destroys the current process, so does the kernel process |
| `SchedulerRuns.KernelLosesStack` | process/src/lib.rs:163-195 | A run from boot in which the stack pointer of a destroyed process is saved for the kernel process |
| `SchedulerRuns.OnlyDispatchRuns` | sched/src/lib.rs:142-162 | Nothing but a dispatch makes a process run |
| `SchedulerRuns.RunBoundedWait` | sched/src/lib.rs:43-122 | The wait bound and its exact condition, in every state a run can reach |
| `SchedulerRuns.YieldStarves` | sched/src/lib.rs:165-174 | A run from boot after which no number of ticks ever runs a ready process: the current one yielded |
| `SchedulerRuns.SleepIsLongEnough` | sched/src/lib.rs:194-216 | A sleep lasts at least the time asked for and less than one tick longer, unless it is the shortest one |
| `ProcessTable.Table.constructor` | process/src/lib.rs:93-118 | The kernel process in slot 0, running and current |
| `ProcessTable.Table.FindNextReady` | sched/src/lib.rs:99-122 | The scanning loop computes `Scheduler.FindNext` |
| `ProcessTable.Table.Dispatch` | sched/src/lib.rs:142-162 | Saves the old stack pointer, makes the next process run, returns its saved stack pointer |
| `ProcessTable.Table.Schedule` | sched/src/lib.rs:64-97 | Refines `Scheduler.Schedule` |
| `ProcessTable.Table.WakeSleepers` | sched/src/lib.rs:51-57 | The loop wakes exactly the sleepers that are due |
| `ProcessTable.Table.HandleTimerInterrupt` | sched/src/lib.rs:43-61 | Refines `Scheduler.Tick` and returns the stack pointer to resume |
| `ProcessTable.Table.YieldProcess` | sched/src/lib.rs:165-174 | Refines the step |
| `ProcessTable.Table.BlockCurrent` | sched/src/lib.rs:176-184 | Refines the step |
| `ProcessTable.Table.UnblockProcess` | sched/src/lib.rs:186-192 | Refines the step; only a blocked process changes |
| `ProcessTable.Table.SleepProc` | sched/src/lib.rs:194-201 | Refines the step with the tick count rounded up |
| `ProcessTable.Table.ExitCurrentProcess` | process/src/lib.rs:210-218 | Refines the step |
| `ProcessTable.Table.CreateProcess` | process/src/lib.rs:123-161 | Adds process `count` in slot `count`, or fails at 64 processes or without memory |
| `ProcessTable.Table.DestroyProcess` | process/src/lib.rs:163-195 | Empties the slot; a destroyed current process hands over to slot 0 |
| `ProcessTable.Table.CleanupTerminatedProcesses` | process/src/lib.rs:197-208 | The loop destroys every terminated process |
| `Heap.AlignUpIsMask` | memory/src/allocator.rs:122-122 | The mask expression rounds up to the alignment, on words of any width |
| `Heap.FitFrom` | memory/src/allocator.rs:108-115 | First fit: the block found is large enough and none before it in the list is |
| `Heap.StepKeepsSound` | memory/src/allocator.rs:103-171 | Every allocation, every release of a live block and every admissible `sbrk` keeps the heap sound |
| `Heap.RunsAreSound` | memory/src/allocator.rs:103-171 | In every run blocks and spans of `sbrk` are pairwise disjoint and below the break, the break within the heap, blocks 8-aligned in it, and every block is live or listed, exactly once |
| `Heap.ListIsFreedInOrder` | memory/src/allocator.rs:35-151 | In every run the list is exactly the freed blocks not handed out again, in the order of freeing |
| `Heap.AllocServes` | memory/src/allocator.rs:103-138 | In every run a block handed out was nobody's before, holds the size asked for inside the heap, is 8-aligned if the heap is, and is apart from every other live block and span |
| `Heap.NullMeansFull` | memory/src/allocator.rs:108-127 | Allocation returns null exactly if no listed block is large enough and nothing is left at the break |
| `Heap.ListedBelowBreak` | memory/src/allocator.rs:129-134 | A fresh block never overwrites the header of a listed one |
| `Heap.FreshAlignment` | memory/src/allocator.rs:121-136 | A fresh payload has the alignment asked for exactly if the payload at the start of the heap has |
| `Heap.AllocAlignment` | memory/src/allocator.rs:103-138 | An allocation has the alignment asked for exactly if the reused block has, or else that payload |
| `Heap.FreshOnBoundary` | memory/src/allocator.rs:121-136 | On a heap that starts on the boundary, fresh payloads have an alignment exactly if it is at most 8 |
| `Heap.PagesAreMisaligned` | process/src/lib.rs:265-274 | The page alignment asked for kernel stacks is never met by a fresh block on a heap that starts on a page |
| `Heap.Misaligned` | memory/src/allocator.rs:121-136 | A fresh block asked for on a multiple of 16 whose payload is not on one |
| `Heap.SbrkKeepsBlocksIff` | memory/src/allocator.rs:155-171 | Exactly when a successful `sbrk` leaves every block below the break |
| `Heap.SbrkCanOverlap` | memory/src/allocator.rs:155-171 | A run in which a negative `sbrk` makes two allocations return the same payload |
| `HeapRegion.PlaceHeap` | memory/src/allocator.rs:186-211 | The loops compute the heap: the first usable region above 16 MiB, less the room for a bitmap |
| `HeapRegion.HeapFramesAreFree` | memory/src/allocator.rs:186-211 | On every page-aligned, disjoint memory map a frame of the heap is in the pool of the frame allocator exactly if it is above the low megabyte |
| `HeapAllocator.Allocator.constructor` | memory/src/allocator.rs:186-211 | An empty heap in that place, through the direct map |
| `HeapAllocator.Allocator.PushBack` | memory/src/allocator.rs:35-49 | The links represent the list with the block added at the end |
| `HeapAllocator.Allocator.PopFront` | memory/src/allocator.rs:51-69 | The links represent the list without its first block, which is returned |
| `HeapAllocator.Allocator.Remove` | memory/src/allocator.rs:71-87 | The links represent the list without the block, wherever it stood |
| `HeapAllocator.Allocator.Alloc` | memory/src/allocator.rs:103-138 | The search along the links refines `Heap.Alloc`, first fit before the break |
| `HeapAllocator.Allocator.Dealloc` | memory/src/allocator.rs:140-151 | Refines `Heap.Dealloc` |
| `HeapAllocator.Allocator.Sbrk` | memory/src/allocator.rs:155-171 | Refines `Heap.Sbrk` |
| `Descriptors.SlotLeft` | process/src/lib.rs:54-64 | With at most 64 nodes a descriptor table never runs out of slots |
| `Descriptors.OpenKeepsMatchedIff` | syscall/src/syscall_handler.rs:122-153 | Exactly when a successful open keeps nodes and descriptors in correspondence |
| `Descriptors.FailedOpenKeeps` | syscall/src/syscall_handler.rs:134-152 | A failed open leaves both tables as they were |
| `Descriptors.CloseKeepsMatched` | syscall/src/syscall_handler.rs:156-165 | Closing keeps the correspondence |
| `Descriptors.CloseAllDrops` | process/src/lib.rs:170-181 | Closing every descriptor of a table drops exactly the nodes they held |
| `Descriptors.DestroyKeepsMatched` | process/src/lib.rs:163-195 | Destroying a process keeps the correspondence |
| `Descriptors.DestroyKeepsOthers` | process/src/lib.rs:163-195 | Destroying a process closes no node of another |
| `Descriptors.CreateKeepsMatched` | process/src/lib.rs:138-157 | A new process with its standard streams keeps the correspondence |
| `Descriptors.RunsStayMatched` | syscall/src/syscall_handler.rs:122-165 | In every run that takes at most 2^32-4 ids, each node is held by exactly one descriptor of one process and each descriptor holds a node that exists |
| `Descriptors.OpenFailsOnlyIfFull` | syscall/src/syscall_handler.rs:146-152 | In every such run an open by a process fails exactly if the file system refuses or the node table is full; the branch for a full descriptor table is never taken |
| `Descriptors.OpenCloseReturns` | syscall/src/syscall_handler.rs:122-165 | Opening and closing n files, n at most 2^32-4, leads from boot back to the booted state with the counter at 4+n, wrapped |
| `Descriptors.WrappedIdLeaks` | vfs/src/lib.rs:464-485 | One more open then gives a descriptor that counts as closed and a node that no close removes: the bound on runs is exact |
| `DescriptorTables.Kernel.constructor` | process/src/lib.rs:93-118 | The kernel process with its standard streams |
| `DescriptorTables.Kernel.VfsOpen` | vfs/src/lib.rs:426-490 | Takes the next id, unless the table is full or the file system refuses |
| `DescriptorTables.Kernel.VfsClose` | vfs/src/lib.rs:493-503 | The retaining loop drops every node with the id |
| `DescriptorTables.Kernel.GetFreeFdIndex` | process/src/lib.rs:54-56 | Finds the first empty slot from 3 on |
| `DescriptorTables.Kernel.OpenFd` | process/src/lib.rs:60-64 | Puts the node in that slot with one reference |
| `DescriptorTables.Kernel.CloseFd` | process/src/lib.rs:69-85 | Drops one reference and, with the last, the descriptor and its node; refuses empty slots |
| `DescriptorTables.Kernel.Open` | syscall/src/syscall_handler.rs:122-153 | Refines `Descriptors.Open` |
| `DescriptorTables.Kernel.Close` | syscall/src/syscall_handler.rs:156-165 | Refines `Descriptors.Close` |
| `DescriptorTables.Kernel.CreateProcess` | process/src/lib.rs:138-157 | Refines `Descriptors.Create` |
| `DescriptorTables.Kernel.DestroyProcess` | process/src/lib.rs:163-195 | Refines `Descriptors.Destroy` |
| `DescriptorTables.Kernel.CloseTable` | process/src/lib.rs:170-181 | The loop computes `Descriptors.CloseAll` |
| `VfsIo.WrittenIsSpliceIff` | vfs/src/lib.rs:610-618 | Exactly when the bytes after a write are the buffer at its place and the old bytes, or zeros in a gap, elsewhere |
| `VfsIo.StartReplaces` | vfs/src/lib.rs:610-611 | A write at the start that cuts a longer file |
| `VfsIo.WriteChangesFile` | vfs/src/lib.rs:593-627 | A write through a node, whatever size it remembers, gives its file the new contents, moves the cursor, brings the 32-bit size up to date and touches no other file |
| `VfsIo.WriteIsSpliceIff` | vfs/src/lib.rs:593-627 | The same exact condition, through the node |
| `VfsIo.WrittenAppendsIff` | vfs/src/lib.rs:607-618 | Exactly when writing at a remembered size appends |
| `VfsIo.AppendThroughIff` | vfs/src/lib.rs:593-627 | The same, through the node |
| `VfsIo.SecondNodeIsStale` | vfs/src/lib.rs:593-627 | A write through one node leaves another node on the file with the size it remembered |
| `VfsIo.TwoAppenders` | vfs/src/lib.rs:593-627 | Writes through two appending nodes on one file append both buffers exactly if the first is empty, or the second is and the file was not |
| `VfsIo.WritesAppend` | vfs/src/lib.rs:593-627 | Writes from the end of the file append, one after the other |
| `VfsIo.ReadsReturn` | vfs/src/lib.rs:541-563 | Chunked reads return the bytes from the cursor on, piece by piece, and move the cursor past them |
| `VfsIo.OpenedOn` | vfs/src/lib.rs:426-490 | A fresh node on an empty file starts at cursor 0 |
| `VfsIo.Rewinds` | vfs/src/lib.rs:514-519 | Seeking to 0 rewinds |
| `VfsIo.WriteThenRead` | vfs/src/lib.rs:426-627 | On a file empty at open, any sequence of writes leaves the concatenation of the buffers, and after seeking to 0 any sequence of chunked reads returns it piecewise with the cursor equal to the bytes read |
| `RamVfs.RamVfs.LookUpFile` | vfs/src/lib.rs:231-238 | The search finds the first file of the name, ignoring ASCII case |
| `RamVfs.RamVfs.LookUpNode` | vfs/src/lib.rs:365-372 | The search finds the first node with the id |
| `RamVfs.RamVfs.ReadFile` | vfs/src/lib.rs:231-238 | Refines `VfsIo.ReadFile` |
| `RamVfs.RamVfs.CreateFile` | vfs/src/lib.rs:239-246 | Refines `VfsIo.CreateFile` |
| `RamVfs.RamVfs.WriteFile` | vfs/src/lib.rs:247-254 | Refines `VfsIo.WriteFile` |
| `RamVfs.RamVfs.Open` | vfs/src/lib.rs:426-490 | Refines `VfsIo.Open` with its flags for creating, emptying, appending and exclusive use |
| `RamVfs.RamVfs.Close` | vfs/src/lib.rs:493-503 | Refines `VfsIo.Close` |
| `RamVfs.RamVfs.Seek` | vfs/src/lib.rs:514-519 | Refines `VfsIo.Seek`, clamped to the file size |
| `RamVfs.RamVfs.Read` | vfs/src/lib.rs:541-563 | Refines `VfsIo.Read` |
| `RamVfs.RamVfs.WriteNode` | vfs/src/lib.rs:593-627 | Refines `VfsIo.WriteNode` |
| `LongLong.WrapIsModulo` | ports/newlib/include/longlong.h:1600-1603 | The carry and borrow cases of word arithmetic are the value modulo the word size |
| `LongLong.AddSsaaaa` | ports/newlib/include/longlong.h:1598-1604 | The sum of two double words modulo the double-word size |
| `LongLong.SubDdmmss` | ports/newlib/include/longlong.h:1608-1614 | The difference of two double words modulo the double-word size |
| `LongLong.UmulPpmm` | ports/newlib/include/longlong.h:1632-1654 | The exact double-word product, for every even word width |
| `LongLong.AddProducts` | ports/newlib/include/longlong.h:1647-1653 | Adding the four half products in their places loses nothing: the one carry that can occur is added where it belongs |
| `LongLong.OrIsPlus` | ports/newlib/include/longlong.h:1675-1675 | Joining a shifted half word and a low one by `or` adds them |
| `LongLong.TrialDigit` | ports/newlib/include/longlong.h:1672-1674 | The trial digit is small enough for its product with the low half to fit a word |
| `LongLong.Correct` | ports/newlib/include/longlong.h:1676-1683 | At most two corrections under wrapping arithmetic give the true remainder |
| `LongLong.HalfDigit` | ports/newlib/include/longlong.h:1672-1683 | One half digit of the quotient with its exact remainder |
| `LongLong.UdivQrnndC` | ports/newlib/include/longlong.h:1665-1700 | For every normalized divisor and n1 < d: q*d + r = n1*2^W + n0 with r < d, for every even word width |
| `Console.PhysicalIsModulo` | framebuffer/src/lib.rs:296-299 | A logical line is kept at its offset from the start, modulo 30 |
| `Console.GrowShows` | framebuffer/src/lib.rs:373-384 | Adding a line to a ring that is not full keeps it the tail of the transcript |
| `Console.TurnShows` | framebuffer/src/lib.rs:385-396 | Turning a full ring keeps it the tail of the transcript |
| `Console.CharShows` | framebuffer/src/lib.rs:323-362 | Every character, tabs and wrap-around included, does to the ring what it does to the transcript |
| `Console.TextShows` | framebuffer/src/lib.rs:364-369 | For every text the logical lines are the last 30 lines, at most, of the transcript of everything written |
| `Console.RenderIsFullRedraw` | framebuffer/src/lib.rs:399-425 | Drawing only the dirty rows shows what drawing all of them would |
| `Console.ScreenIsTranscriptTail` | framebuffer/src/lib.rs:364-425 | After any texts, a console that started blank shows exactly the last rows of the transcript |
| `ConsoleRing.Renderer.constructor` | framebuffer/src/lib.rs:213-272 | A blank ring and a blank screen |
| `ConsoleRing.Renderer.ScrollUp` | framebuffer/src/lib.rs:371-397 | Refines `Console.ScrollUp` |
| `ConsoleRing.Renderer.MarkAllDirty` | framebuffer/src/lib.rs:380-384 | The loop marks exactly the lines in use |
| `ConsoleRing.Renderer.PutChar` | framebuffer/src/lib.rs:342-360 | Refines `Console.PutCell` |
| `ConsoleRing.Renderer.WriteChar` | framebuffer/src/lib.rs:323-362 | Refines `Console.WriteChar` |
| `ConsoleRing.Renderer.WriteText` | framebuffer/src/lib.rs:364-369 | Writes every character and draws the dirty rows |
| `ConsoleRing.Renderer.RenderDirty` | framebuffer/src/lib.rs:399-425 | The loop refines `Console.RenderDirty` |

## Left out

- Hardware: inline assembly, ports, APIC, IDT and GDT, CR3 loads and TLB flushes. A context switch is the pair of saved and restored stack pointers.
- Device drivers (ide, ahci, usb, pci): the disk is a map of sectors, of which some may be missing.
- Locks and interleavings of several processors: operations are atomic steps.
- Huge pages: the walk of the source ignores the HUGE bit, and so does the model.
- Fat12Driver.Driver.Init: volumes with another sector size than 512 are refused, because the source mixes the boot sector's value with a constant 512.
- Fat12Driver.Driver.WriteRootDirectory: more entries than the root directory holds are an error in the model; the source would write past its buffer.
- Fat12Sessions.Session: it ends at the first call that breaks the file map: a creation or renaming that stores a file under the name of another one, a renaming to a name that starts with a zero byte, or an overwriting that fails and does not leave the file whole.
- FailedWrites.FailedOverwriteHoldsIff: for a write error it is stated for disks without gaps; on a disk with unreadable sectors in its middle the file may be left with a chain that avoids them.
- Fat12Driver.Driver.ReadFile: stated for links that end; on a circle of links the loop of the source does not.
- Creating and deleting directories, listing and statistics of FAT12: only combinations of the operations modelled here.
- Subdirectories.ReadSubdirectory: the same.
- Subdirectories.WriteSubdirectory: stated for a directory whose chain ends in an end mark.
- Descriptors.OpenKeepsMatchedIff: reading the path from user memory, and its checks, happen before the modelled step.
- The read and write system calls: their checks around `vfs_read` and `vfs_write_node` would only add easy members.
- SchedulerRuns.After: a process that is asleep or has exited makes no call, the stack and address space of a new process are given, and descriptors are in `Descriptors` instead.
- Heap.RunsAreSound: releases of pointers that are not live are not admitted.
- HeapAllocator.Allocator.Dealloc: the same; a block released twice would be linked to itself.
- DescriptorTables.Kernel.VfsOpen: the answer of the file system is a parameter; `VfsIo` has the file system.
- The free list of the heap is walked through a map from block addresses to headers; that headers do not overlap is what `Heap.RunsAreSound` proves.
- VfsIo.WriteThenRead: files of 2^32 bytes and more, whose cached sizes are truncated, are excluded.
- The FAT12 driver behind the node layer: it refuses empty files, so the node layer is modelled over the RAM file system; mounts are reduced to one.
- Console colours, glyphs and pixels: a row is drawn by copying it; lines are kept at their width instead of at 80 cells.
- Other architectures' assembly in `longlong.h`.
