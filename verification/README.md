# AshOS in Dafny

A model of the stateful parts of AshOS, a 32-bit x86 kernel, with proofs about whole runs:

- **AshFS** (`kernel/fs.c`, `tools/mkdisk.c`): the disk is a sequence of 512-byte sectors. Each operation is
  the list of sector writes it makes, so that a crash can fall between any two of them. Files
  `Bytes`, `FsLayout`, `FsSpec`, `FsFrame`, `FsCrash`, `FsCount`, `FsRefine`, `FsRuns` hold the values and
  theorems; `FsKernel` and `MkdiskTool` are the programs themselves, loop by loop, proved against them;
  `Mkdisk` is the theory of the host tool.
- **Kernel heap** (`kernel/heap.c`): `HeapSpec` and `HeapTheorems` treat the heap as a sequence of blocks,
  `HeapMemory` says how that sequence lies in bytes, `HeapStores` gives the bytes after each call as a
  function of the bytes before, `KernelHeap` is the allocator that walks and splices the 12-byte headers
  inside its own memory, `HeapRuns` follows it over runs with client writes. The allocator's memory is what
  the page walk shows from 16 MB on (`HeapView`); all its loads and stores go through the walk.
- **Frames, page tables, ELF loading** (`kernel/pmm.c`, `kernel/vmm.c`, `kernel/elf.c`): `FrameSpec` and `Pmm`
  (the bitmap), `Paging`, `WalkMemory` and `Vmm` (two-level tables in physical memory and the processor's
  walk through them, section 4.3 of the Intel SDM Volume 3A), `ElfSpec` and `ElfLoader` (segment loading,
  chapter 5 of the System V gABI). Table frames, too, are written through the walk, at their own addresses;
  that the identity map reaches the frames that are tables, or become tables, is the explicit precondition
  (`WalkMemory.Pinned`, `WalkMemory.TablesFor`); nothing is assumed of any other frame.
- **Processes** (`kernel/process.c`, `kernel/process.s`): `SchedSpec` (the list and the round robin),
  `ProcessList` (the linked records), `ContextSwitch` (registers, stacks and the switch), `ProcessMemory`
  (records and stacks as heap payloads).

## Main results

1. *AshFS is a map.* `FsRuns.AshFsIsAMap`: from any disk that `fs_init` formats, every run of create, write,
   read, delete and reboot answers exactly as a small abstract machine over a map from names to files,
   return codes included. A write of any size is covered: the abstract write stores `Smear(data)`, the
   bytes the kernel's loop really leaves, and `FsRuns.WriteRoundTrip` says exactly when these are the data.
2. *Crashes.* `FsCrash.WriteCrashAtomic`, `FsCrash.DeleteCrashAtomic`, `Mkdisk.MakeCrashAtomic` at every prefix
   of the sector writes, and `FsRuns.CrashRunAtomic` over runs with any number of crashes.
   `FsRuns.CountAlongRun` says exactly which crashes spoil the free counter. Formatting is the exception;
   `FsRuns.FormatCrash` gives the exact condition.
3. *Counter against scan.* `FsRefine.CounterAgainstScan`, by pigeonhole (`FsCount.FullDisk`), and
   `FsRuns.CountIsExact`, which says over which runs the counter is not merely a lower bound.
4. *mkdisk round trip* for every file of up to 32 blocks: `Mkdisk.MakeThenRead`.
5. *The heap.* `KernelHeap.Heap.Kmalloc` and `Kfree` store exactly the bytes of `HeapStores.MallocMem` and
   `FreeMem`, which lay out the new block sequence and keep every live byte (`HeapStores.MallocMemFacts`,
   `HeapStores.FreeMemFacts`); over runs, `HeapRuns.MemRunValid` and `HeapRuns.PayloadSurvives`.
   `HeapTheorems.MallocComplete` (null exactly when no gap fits, else the lowest gap),
   `HeapTheorems.MallocThenFree`, `HeapTheorems.FreeAllAnyOrder`.
6. *Page tables.* `Paging.MapCorrect`; `Vmm.MapAllCorrect`: a sequence of maps gives the translation asked for
   if and only if the free frames cover the missing tables; `Vmm.KernelVm.MapMany`, `Vmm.KernelVm.Init`.
7. *ELF.* `ElfLoader.Loader.ElfLoad`: success if and only if heap, header and frames allow it, and then the
   image is what the page walk shows; a page fault if and only if a last frame finds no table. However it
   ends, the headers in the heap's pages are those of the block list there was (after a fault, with the
   buffer still taken), live payloads and kernel data read as before, and no page outside the image is mapped
   differently, although buffer, tables and segments are written in the same memory.
   The pages of the image are writable from ring 3 (`WalkMemory.OpensUp`).
   `ElfLoader.Loader.Boot` chains `pmm_init`, `vmm_init`, `heap_init` and the load.
8. *Scheduling.* `SchedSpec.StepExactly` and `SchedSpec.RunSafe`, `SchedSpec.AliveUntilExit`,
   `SchedSpec.ExitedIsGone`, `SchedSpec.BoundedWaiting`, `ContextSwitch.ResumeFaithful`,
   `ContextSwitch.NewProcessEnters`; `ProcessMemory.WorldResumes` is resumption over runs that mix heap calls
   and process calls, with the separation of stacks derived from the allocator.

## Where the code and its documentation differ

The model follows the code. The magic number is 0xA5075 (`include/fs.h` defines an unusable `0xA5H05`); a file
has up to 32 blocks (the repository's README says 8); the inode table uses sectors 1 to 16 of the 32 reserved;
`vmm_init` maps 8 MB, not 4; `MAX_PROCESSES` is not enforced.

Promises that turn out not to hold, each with its exact condition and an input on which it fails:

- a kernel write of more than one block keeps only the last chunk (`FsKernel.AshFs.WriteChunks`,
  `FsRuns.WriteThenRead`, `FsRuns.WriteLosesData`);
- rewriting a file never returns its old blocks: counter plus slots in use stays the same exactly when nothing
  is stored or the file had no slots (`FsRuns.RewriteLosesBlocks`, `FsRuns.CountIsExact`, `FsRuns.RunDown`);
- a write that runs out of blocks under way leaves the counter in memory at 0 until the next reboot
  (`FsRuns.FailedWriteCounter`, `FsRuns.RunsOut`);
- names of 64 characters and more can be created but never found again, and can duplicate a shorter
  file's name (`FsRuns.LongNameCreate`, `FsRuns.LongNameTwice`, `FsFrame.KeysAreShort`);
- sizes within 511 of 2^32 wrap to zero blocks (`FsRuns.WrappedSize`);
- a crash while formatting leaves a disk that is taken for formatted (`FsRuns.FormatCrash`,
  `FsRuns.FormatCrashKeepsFile`);
- a crash between the inode and the superblock of a write can leave the counter on disk too high
  (`FsRuns.CountAfterEvent`, `FsRuns.CrashSpoilsCount`);
- mkdisk checks neither for a name already there nor for one that becomes so when cut (`Mkdisk.MakeKeepsNames`,
  `Mkdisk.MakeTwice`);
- mkdisk wraps the free counter when it takes more blocks than the counter admits (`Mkdisk.MakeKeepsCount`,
  `Mkdisk.MakeWrapsCounter`);
- `pmm_init` counts wrongly when the kernel ends beyond memory (`Pmm.FrameAllocator.Init`, `Pmm.TooSmall`);
- `kmalloc` of more than 2^32 - 4 bytes returns a payload that does not hold them (`KernelHeap.Heap.Kmalloc`,
  `KernelHeap.Heap.HugeRequest`);
- `vmm_map` gives up silently when it has no frame for a table, which the loader notices only by a page
  fault (`ElfSpec.ImageFaults` is the condition, `ElfLoader.Loader.ElfLoad` the claim, `ElfSpec.OnePageFaults`
  an image);
- `heap_init` goes on when it could map only part of the heap (`ElfLoader.Loader.HeapInit`,
  `ElfLoader.Loader.HeapNeeds`).

## Model

| member | source | states |
|---|---|---|
| FsLayout.InodeRoundTrip | include/fs.h:24-30 | decoding the 200-byte encoding of an inode gives the inode back, field by field |
| FsLayout.SuperRoundTrip | kernel/fs.c:229-233 | a superblock written to a zeroed sector is read back as it was |
| FsLayout.SuperOnDisk | include/fs.h:14-21 | the six fields of the superblock lie at byte offsets 0, 4, 8, 12, 16 and 20 of sector 0 |
| FsLayout.InodeOnDisk | kernel/fs.c:60-67 | inode i lies in half i mod 2 of sector 1 + i / 2, its fields at byte offsets 0, 64, 68, 196 and 197 |
| Bytes.LittleEndian | include/fs.h:14-30 | words lie in memory and on disk with the least significant byte first |
| FsLayout.InodeReadAfterWrite | kernel/fs.c:60-77 | reading inode j after writing inode i gives the new inode if i = j and the old one otherwise, through the sector both share |
| FsLayout.TableAfterInodeWrite | kernel/fs.c:69-77 | writing inode i updates the table at i alone and touches only one of the sectors 1 to 16 |
| FsLayout.TableAfterOtherWrite | kernel/fs.c:60-67 | a write to any sector outside 1 to 16 leaves every inode as it was |
| FsSpec.StoredNameIs | kernel/fs.c:31-39 | a stored name answers to its first 63 characters and is always terminated |
| FsSpec.FindFrom | kernel/fs.c:79-88 | the result is the lowest used inode with that name, or -1 when there is none |
| FsSpec.UnusedFrom | kernel/fs.c:90-99 | the result is the lowest unused inode, or -1 when all are used |
| FsSpec.FreeBlockFrom | kernel/fs.c:120-127 | the result is the lowest data block that no used inode refers to, or 0 when all are referred to |
| FsKernel.Strcmp | kernel/fs.c:25-29 | zero exactly for equal C strings, else the signed difference at the first place they differ |
| FsKernel.Strcpy | kernel/fs.c:31-39 | copies at most max - 1 characters, terminates them, leaves the rest of the buffer alone |
| FsKernel.AshFs.InodeRead | kernel/fs.c:60-67 | returns entry i of the inode table |
| FsKernel.AshFs.InodeWrite | kernel/fs.c:69-77 | updates exactly entry i of the table, in one sector write |
| FsKernel.AshFs.InodeFind | kernel/fs.c:79-88 | the loop finds the lowest used inode with the name, or -1 |
| FsKernel.AshFs.InodeAlloc | kernel/fs.c:90-99 | the loop finds the lowest unused inode, or -1 |
| FsKernel.AshFs.MarkInode | kernel/fs.c:112-117 | after the inner loop exactly the blocks marked before and those of this inode are marked, with every index in range |
| FsKernel.AshFs.BlockAlloc | kernel/fs.c:101-128 | returns the first block no on-disk inode refers to, or 0 when the counter is 0 or none is left, and decrements the counter exactly on success |
| FsKernel.AshFs.Init | kernel/fs.c:134-164 | keeps a disk with the magic number, else writes a fresh superblock and 32 zero sectors, in that order |
| FsKernel.AshFs.Create | kernel/fs.c:166-188 | makes exactly the sector write of the specification; for names up to 63 characters the files gain one empty file on success and are unchanged on failure |
| FsKernel.AshFs.WriteChunks | kernel/fs.c:207-227 | every pass is given the same block, so all chunks land in one unreferenced sector and all slots name it; on running out the counter is 0 |
| FsKernel.AshFs.Write | kernel/fs.c:190-237 | data sectors, inode sector, superblock, in that order, with return code; the files become those of the smeared write on success and are unchanged on failure |
| FsKernel.AshFs.Read | kernel/fs.c:239-265 | puts exactly the first min(size, length) bytes of the file at the front of the buffer, leaves the rest, and returns their number or -1 |
| FsKernel.AshFs.ReleaseBlocks | kernel/fs.c:278-283 | clears all slots and adds the number of non-zero ones to the counter, modulo 2^32 |
| FsKernel.AshFs.Delete | kernel/fs.c:267-295 | inode sector then superblock; exactly the named file goes |
| FsFrame.FilesFind | kernel/fs.c:79-88 | a name is a key of the map of files exactly when inode_find succeeds, with that inode's contents |
| FsFrame.KeysAreShort | kernel/fs.c:79-88 | a name of more than 63 characters is never found |
| FsFrame.IdleWrite | kernel/fs.c:217-223 | writing a sector no file refers to changes no file |
| FsFrame.TablePut | kernel/fs.c:69-77 | replacing one inode takes out one file and brings in one, and keeps all others |
| FsCrash.RewrittenOk | kernel/fs.c:215-227 | the inode after a write keeps the table in order: distinct names, no shared block, slots enough for the size |
| FsCrash.CommitInTable | kernel/fs.c:226-227 | the new inode turns the target's contents into the smeared data and changes no other file |
| FsCrash.WriteLogShape | kernel/fs.c:207-233 | the writes of fs_write: chunks to one unreferenced data block, then, on success only, the inode sector and the superblock |
| FsCrash.WriteCrashAtomic | kernel/fs.c:190-237 | after every prefix of the sector writes the disk is in order, all other files are as before, and the target is old before the inode write and new from it on |
| FsCrash.CreateAtomic | kernel/fs.c:166-188 | a create is at most one sector write and adds exactly one empty file |
| FsCrash.DeleteCrashAtomic | kernel/fs.c:267-295 | after every prefix of the writes the file is there before the inode write and gone after it, all others untouched |
| FsRuns.DeletedInode | kernel/fs.c:267-286 | a deleted file leaves its inode on disk unused, with all slots 0 and name and size as they were |
| FsCount.FullDisk | kernel/fs.c:110-127 | pigeonhole: when the scan finds no free block, used inodes hold at least 1024 non-zero slots |
| FsCount.ScanCount | kernel/fs.c:110-127 | the blocks the scan finds free and the slots of used inodes together number at least 1024 |
| FsCount.SlotSumPut | kernel/fs.c:278-283 | replacing an inode changes the sum of slots by the difference of the two inodes' slots |
| FsCount.FilesSize | kernel/fs.c:90-99 | a free inode exists exactly when there are fewer than 32 files |
| FsRefine.CreateRefines | kernel/fs.c:166-188 | create does to files and counters what the abstract machine does and returns the same code |
| FsRefine.WriteRefines | kernel/fs.c:190-237 | write succeeds exactly when the name exists, at most 32 blocks are needed and the counter covers them; same new state and code as the abstract machine |
| FsRefine.ReadRefines | kernel/fs.c:239-265 | read returns the abstract file's bytes |
| FsRefine.DeleteRefines | kernel/fs.c:267-295 | delete removes the file and returns its slots to the counter |
| FsRefine.RebootRefines | kernel/fs.c:134-164 | a reboot keeps all files and takes the counter from disk |
| FsRefine.StepCorrect | kernel/fs.c:134-295 | every operation keeps the invariants and refines its abstract counterpart |
| FsRefine.RunRefines | kernel/fs.c:134-295 | every run returns what the abstract machine returns and ends in the corresponding state |
| FsRefine.CounterAgainstScan | kernel/fs.c:101-128 | after every run counter plus slots is at most 1024, the counter is at most the number of blocks the scan finds free, all block numbers lie in [33, 1057), and block_alloc fails exactly when the counter is 0 |
| FsRuns.FormatCorrect | kernel/fs.c:140-159 | formatting any disk without the magic number gives an empty file system with 1024 free blocks |
| FsRuns.KeptDisks | kernel/fs.c:134-159 | fs_init writes nothing exactly when sector 0 starts with 75 50 0A 00, and 33 sectors otherwise |
| FsRuns.FreshBytes | kernel/fs.c:143-153 | the 512 bytes of the superblock sector of a formatted disk |
| FsRuns.FormatCrash | kernel/fs.c:151-157 | after a crash inside formatting the disk is accepted, and comes up empty exactly when the sectors not reached held no used inode |
| FsRuns.FormatCrashKeepsFile | kernel/fs.c:151-157 | a disk without the magic number on which a crash right after the superblock leaves a used inode in a file system taken for formatted |
| FsRuns.AshFsIsAMap | kernel/fs.c:134-295 | from any disk fs_init formats, every run answers as a map from names to files |
| FsRuns.WriteRoundTrip | kernel/fs.c:207-224 | the data survives a kernel write exactly when every full chunk equals the zero-padded last one, in particular up to 512 bytes |
| FsRuns.WriteThenRead | kernel/fs.c:190-265 | a write succeeds exactly when the file exists, at most 32 blocks are needed and the counter covers them; a read then returns the smeared data, equal to the data exactly when every full chunk equals the zero-padded last one |
| FsRuns.WriteLosesData | kernel/fs.c:207-262 | with two blocks free, a certain 513-byte write to any file succeeds, and a read of 513 bytes then gives a different first byte |
| FsRuns.WrappedSize | kernel/fs.c:201-233 | a size within 511 of 2^32 is accepted with two sector writes and no data; the inode then on disk has the new size and the old blocks, which cannot hold it, so the table is out of order |
| FsRuns.LongNameCreate | kernel/fs.c:166-188 | a successful create keeps names distinct exactly when the name cut to 63 characters was not taken |
| FsRuns.LongNameTwice | kernel/fs.c:166-188 | on every freshly formatted disk a 63-character name and the same name with one more character are both created, and the table then holds two files of one name |
| FsRuns.EventCorrect | kernel/fs.c:166-295 | an operation cut by a crash anywhere and followed by a reboot leaves the disk in order and has taken place wholly or not at all |
| FsRuns.CrashRunAtomic | kernel/fs.c:166-295 | over every run with crashes the files are those of the operations that took place, in order |
| FsRuns.CountAfterEvent | kernel/fs.c:226-233 | counter and table stay in step over an operation or a crash exactly when it is not a crash between inode and superblock of a write that adds more slots than the counter on disk leaves room for |
| FsRuns.CountAlongRun | kernel/fs.c:166-295 | they are in step in every state of a run with crashes exactly when no event of it is such a crash |
| FsRuns.CrashSpoilsCount | kernel/fs.c:226-233 | on every freshly formatted disk the first one-block write, cut before the superblock, leaves 1024 free blocks counted beside one in use |
| FsRuns.RewriteLosesBlocks | kernel/fs.c:207-233 | over a successful write counter plus slots in use never grows, and stays the same exactly when nothing is stored or the file had no slots |
| FsRuns.FailedWriteCounter | kernel/fs.c:207-213 | a failing write leaves the counter in memory alone exactly when the file is missing, more than 32 blocks are needed or the counter is 0 already; otherwise it leaves 0 |
| FsRuns.CountIsExact | kernel/fs.c:134-295 | from a formatted disk counter plus slots is 1024 in every state of a run exactly when no write of it stores something in a file that has slots or runs out of blocks under way |
| FsRuns.RunDown | kernel/fs.c:207-233 | each rewrite of a one-block file takes one from both counters and gives nothing back |
| FsRuns.RunsOut | kernel/fs.c:207-213 | with one block left on the counter a write of two fails and leaves 0 in memory, and the next reboot brings the 1 back |
| Mkdisk.PackedIsNatural | tools/mkdisk.c:22-37 | a struct whose packed offsets are aligned has the same offsets without packing |
| Mkdisk.SameLayout | tools/mkdisk.c:22-37 | mkdisk's structs and the kernel's packed ones agree on every member offset |
| FsSpec.FreeBlocksFrom | tools/mkdisk.c:160-169 | the unreferenced blocks in ascending order: all of them, each once |
| Mkdisk.MadeInodeOk | tools/mkdisk.c:151-178 | for a cut name that is absent the new inode keeps the table in order, answers to that name and has exactly as many slots as the file has blocks |
| Mkdisk.MadeContents | tools/mkdisk.c:178-185 | the file as the new inode describes it is the input, byte for byte |
| Mkdisk.MakeCrashAtomic | tools/mkdisk.c:157-198 | for every name whose cut form is absent, at every prefix of the writes all files are as before until the inode is written, then the new file with its exact bytes is there under the cut name too; an abort changes no file |
| Mkdisk.MakeSucceeds | tools/mkdisk.c:102-176 | exit code 0 exactly when there are fewer than 32 files, at most 32 blocks are needed and that many are unreferenced, else 1; the blocks are distinct |
| Mkdisk.MakeThenRead | tools/mkdisk.c:110-198 | the kernel mounts the image without formatting and reads the same bytes back under the name cut to 63 characters |
| Mkdisk.MakeKeepsNames | tools/mkdisk.c:151-154 | after a successful run the table is in order exactly when the name cut to 63 characters was absent |
| Mkdisk.MakeTwice | tools/mkdisk.c:110-154 | a file the kernel created, copied onto the image once more: mkdisk succeeds and leaves two files of that name |
| Mkdisk.MakeKeepsCount | tools/mkdisk.c:166-198 | counter and table stay in step exactly when the file needs no more blocks than the counter says are free |
| Mkdisk.MakeWrapsCounter | tools/mkdisk.c:166-198 | on an image whose counter kernel rewrites have run down to 0, mkdisk adds a file all the same and free_blocks becomes 2^32 - 1 |
| MkdiskTool.DiskImage.FreeInode | tools/mkdisk.c:110-124 | the search finds the lowest unused inode, or -1 |
| MkdiskTool.DiskImage.MarkUsed | tools/mkdisk.c:133-149 | exactly the blocks of used inodes are marked |
| MkdiskTool.DiskImage.TakeBlock | tools/mkdisk.c:160-169 | with i blocks taken the search yields the i-th unreferenced block and marks it, or 0 when none is left |
| MkdiskTool.DiskImage.CopyChunks | tools/mkdisk.c:157-186 | chunk i goes to the i-th unreferenced block until all are written or the disk is full |
| MkdiskTool.DiskImage.CopyFile | tools/mkdisk.c:72-198 | exit code and sector writes, in order, for every outcome, an image without the magic number included |
| HeapSpec.FitFrom | kernel/heap.c:88-109 | the lowest free block that is large enough, or none |
| HeapSpec.LiveDisjoint | kernel/heap.c:88-109 | different live payloads are apart by at least a header |
| HeapSpec.CoalesceTight | kernel/heap.c:49-60 | after coalescing no two neighbours are free |
| HeapSpec.CoalesceKeeps | kernel/heap.c:49-60 | coalescing keeps the total length and every live payload in place |
| HeapTheorems.MallocTight | kernel/heap.c:81-113 | kmalloc never makes two free neighbours |
| HeapTheorems.MallocLive | kernel/heap.c:81-113 | a successful kmalloc adds one payload at least as large as asked, apart from all live ones, which stay; at least 16 bytes left over stay free, fewer go with the payload |
| HeapTheorems.FreeLive | kernel/heap.c:115-124 | kfree removes exactly its own payload and leaves no two free neighbours |
| HeapTheorems.MallocThenFree | kernel/heap.c:81-124 | freeing what kmalloc just returned restores the block list |
| HeapTheorems.GapIsOneBlock | kernel/heap.c:49-60 | any stretch clear of live allocations lies inside one free block |
| HeapTheorems.MallocComplete | kernel/heap.c:88-112 | kmalloc finds nothing exactly when no clear stretch holds a header and the request, and otherwise takes the lowest |
| HeapTheorems.NothingLive | kernel/heap.c:71-75 | with nothing live the heap is the single initial block |
| HeapTheorems.RunKeeps | kernel/heap.c:66-124 | in every state of every run the blocks tile the heap with no two free neighbours |
| HeapTheorems.FreeAllAnyOrder | kernel/heap.c:115-124 | freeing all live blocks in any order restores the single block |
| HeapMemory.SplitLays | kernel/heap.c:96-103 | the two headers written by a split lay out the split list in memory |
| HeapMemory.HeaderBytes | kernel/heap.c:14-18 | a header in bytes: size in bytes 0 to 3, flag in byte 4, successor in bytes 8 to 11, least significant first |
| HeapMemory.MergeLays | kernel/heap.c:53-55 | the header rewritten by a merge lays out the merged list |
| HeapStores.MallocMemFacts | kernel/heap.c:88-109 | the bytes kmalloc stores lay out the list of the first-fit allocation and change no byte of a live payload |
| HeapStores.CoalesceMemFacts | kernel/heap.c:49-60 | the bytes the merging pass stores lay out the coalesced list and change no byte of a live payload |
| HeapStores.FreeMemFacts | kernel/heap.c:115-124 | the bytes kfree stores lay out the list without the block and change no byte of a payload that stays live |
| HeapView.HeapStore | kernel/heap.c:20-22 | a store to a heap address changes one byte of the heap as the walk shows it and nothing else: no table, no frame, no byte outside |
| HeapView.BesideSame | kernel/heap.c:20-22 | while only the heap's bytes change, all other separate pages read as before |
| KernelHeap.AlignUp | kernel/heap.c:86 | rounds up to a multiple of 4 for sizes up to 2^32 - 4, and to 0 above |
| KernelHeap.Heap.Kmalloc | kernel/heap.c:81-113 | the heap's bytes become those of MallocMem and hold the list of a first-fit allocation, the pointer is the block's payload or null, a payload holds the request exactly when its size is at most 2^32 - 4, no live byte and no byte outside the heap changes |
| KernelHeap.Heap.HugeRequest | kernel/heap.c:86 | on a fresh heap a request of 2^32 - 1 bytes gets a payload of none |
| KernelHeap.Heap.Kfree | kernel/heap.c:115-124 | the heap's bytes become those of FreeMem and hold the coalesced list without the block; no byte of a payload still live and none outside the heap changes |
| KernelHeap.Heap.DoCoalesce | kernel/heap.c:49-60 | the in-place pass over the headers computes Coalesce on the list and CoalesceMem on the bytes |
| KernelHeap.Heap.ClientWrite | kernel/heap.c:81-113 | a write inside a live payload leaves the list as it is |
| HeapRuns.PayloadFacts | kernel/heap.c:86-106 | payloads are 4-aligned, inside the heap and pairwise disjoint |
| HeapRuns.Perform | kernel/heap.c:81-124 | the allocator makes exactly the steps that the runs consist of: kmalloc, kfree and client writes |
| HeapRuns.MemStepKeeps | kernel/heap.c:81-124 | every such step leaves a tight list that tiles the heap and keeps the bytes of every payload live before and after |
| HeapRuns.MemRunValid | kernel/heap.c:66-124 | in every memory reachable by the stores of kmalloc, kfree and client writes the list tiles the heap and is tight |
| HeapRuns.PayloadSurvives | kernel/heap.c:81-124 | over every run a payload that stays live and is not written by its owner keeps every byte |
| FrameSpec.AllocFacts | kernel/pmm.c:78-88 | the result is 0 exactly when no frame is free, else a free frame other than 0, and the free count drops by one |
| FrameSpec.NoFrameTwice | kernel/pmm.c:78-95 | between two allocations of one frame it was freed |
| FrameSpec.ReleaseFacts | kernel/pmm.c:90-95 | a frame given back is free again, nothing else changes, and there is one more to hand out |
| FrameSpec.TakeAndGive | kernel/pmm.c:78-95 | giving back what was just taken restores the state |
| FrameSpec.FramesConserved | kernel/pmm.c:78-100 | over every run the free frames are those there were, less those taken, plus those given back |
| Pmm.SetBit | kernel/pmm.c:21-24 | setting a bit changes that frame's bit only |
| Pmm.ClearBit | kernel/pmm.c:26-29 | clearing a bit changes that frame's bit only |
| Pmm.FrameAllocator.Init | kernel/pmm.c:40-72 | the page count is that of the whole 4 KB pages in 1 MB plus the memory reported, at most 32768, with the wrap at 2^32 KB spelt out; exactly the frames from the kernel's end to the end of memory are free; the counter is right exactly when the kernel ends within memory |
| Pmm.TooSmall | kernel/pmm.c:46-48 | with no memory above 1 MB the kernel, linked at 2 MB, ends beyond memory |
| Pmm.CommonMachine | kernel/pmm.c:46-48 | 129920 KB above 1 MB are 32736 pages |
| Pmm.FrameAllocator.Allocate | kernel/pmm.c:78-88 | the lowest free frame becomes used and its address is returned, or 0 |
| Pmm.FrameAllocator.FreeFrame | kernel/pmm.c:90-95 | exactly that frame becomes free |
| Pmm.FrameAllocator.FreePages | kernel/pmm.c:97-100 | the number of clear bits below the total |
| Paging.TableMade | kernel/vmm.c:37-47 | building a table changes no translation and keeps all tables distinct frames in use |
| Paging.EntryWritten | kernel/vmm.c:67 | writing an entry changes the translation of exactly one page |
| Paging.MapCorrect | kernel/vmm.c:57-68 | vmm_map changes the translation of exactly one page, or of none when it has no frame for a table; frames in use that are no tables keep their bytes |
| Paging.MapFlags | kernel/vmm.c:28-68 | the entry written for the page, and that of a new table, name their frames with the bits of the flags and the present bit; every other entry of both levels stays as it is |
| Paging.WalkIs | kernel/vmm.c:30-67 | the walk in words of memory: bits 31 to 22, 21 to 12 and 11 to 0 of the address, and the present bits |
| Vmm.MapAllCorrect | kernel/vmm.c:28-68 | every sequence of maps gives exactly the translation asked for if and only if the free frames cover the tables that are missing; data frames are untouched and table frames in use, so never handed out again |
| Vmm.KernelVm.GetTable | kernel/vmm.c:28-48 | returns the table there is or a new zeroed one, or null when no frame is left; directory and table must be within reach of the identity map |
| Vmm.KernelVm.Map | kernel/vmm.c:57-68 | written through the walk, the tables in memory become those of the specification; directory and table must be within reach of the identity map |
| Vmm.KernelVm.MapMany | kernel/vmm.c:28-68 | a run of vmm_map calls on pages outside the pinned ones computes MapAll and keeps the page tables within reach |
| WalkMemory.PinnedMap | kernel/vmm.c:28-68 | mapping a page outside the pinned ones keeps every table, old or new, at a page mapped to itself, given only that the frame that becomes a table is pinned |
| WalkMemory.MapOpens | kernel/elf.c:87-88 | a page mapped with the present, writable and user flags can be written from ring 3, and no page that could loses that |
| WalkMemory.TablesThere | kernel/vmm.c:28-35 | mapping pages whose tables are there makes no frame a table |
| Vmm.KernelVm.Init | kernel/vmm.c:75-108 | the first 8 MB map to themselves except page 0x500000, which gets the next frame; nothing else is mapped, the only tables are the three static ones, within reach, and all 8 MB are writable from ring 3 |
| WalkMemory.StoreStep | kernel/elf.c:10-23 | a store through the walk to one of several separate pages changes that byte of them and no other, and no translation |
| ElfSpec.MapStep | kernel/elf.c:80-89 | mapping a fresh frame at a new page adds a separate page and changes no byte seen on the others |
| ElfSpec.MapCost | kernel/elf.c:80-89 | a page costs one frame, and one more exactly when its table is missing |
| ElfLoader.Loader.MapOne | kernel/elf.c:81-88 | one pass takes a frame and maps it, or stops for want of a frame, or leaves the page unmapped for want of a table; only a frame that becomes a table must be within reach |
| ElfLoader.Loader.MapHeap | kernel/heap.c:33-44 | as many heap pages as there are frames for, with their table, get frames of their own, and no other page is mapped differently; the frames left are exact |
| ElfLoader.Loader.HeapInit | kernel/heap.c:66-75 | a fault exactly when the first page could not be mapped; else the first header is in place, and the heap is in order exactly when frames suffice for all its pages; tables and frames left are exact, and the heap's pages are writable from ring 3 |
| ElfLoader.Loader.HeapNeeds | kernel/heap.c:33-44 | after vmm_init the heap takes 257 frames; with 2 to 256 its first page is mapped and it is not in order |
| ElfLoader.Loader.MapPages | kernel/elf.c:79-96 | the pages mapped are as many as the frames reach; it stops for want of a frame, or ends with only the last page missing, the latter exactly when the last frame finds no table; no other page is mapped differently |
| ElfLoader.Loader.Memcpy | kernel/elf.c:10-16 | copies byte by byte through the walk, faults exactly when a target page is not mapped, and never writes outside its range |
| ElfLoader.Loader.Memset | kernel/elf.c:18-23 | zeroes through the walk, faults exactly when a target page is not mapped, and never writes outside its range |
| ElfLoader.Loader.FillSegment | kernel/elf.c:98-105 | the segment shows the file's bytes then zeros, all other protected pages are unchanged; a fault exactly when a page is missing |
| ElfLoader.Loader.LoadSegment | kernel/elf.c:72-106 | a segment loads exactly when frames suffice for its pages and missing tables, and uses exactly that many; it faults exactly when its last frame finds no table; in every case all protected pages read as before |
| ElfLoader.Loader.CheckHeader | kernel/elf.c:46-65 | accepts exactly the headers with bytes 7F 45 4C 46 01 at the front and 02 00 03 00 at offset 16: magic, 32-bit, executable, x86 |
| ElfSpec.Accepted | kernel/elf.c:46-65 | acceptance in the header's nine bytes, both ways |
| ElfSpec.OneByteOff | kernel/elf.c:46-65 | any one of these bytes changed, and an accepted image is rejected |
| ElfSpec.HeaderRoundTrip | include/elf.h:19-39 | for every header written field by field, acceptance, entry point, program header offset and count are read as written |
| ElfLoader.Loader.ReadSegment | kernel/elf.c:69-73 | program header i as stored, 32 bytes apart |
| ElfSpec.SegmentRoundTrip | include/elf.h:42-51 | for every program header written field by field at its place, the loader reads kind, offset, address and both sizes as written |
| ElfLoader.Loader.LoadImage | kernel/elf.c:46-111 | a rejected header changes nothing; an accepted image loads exactly when frames suffice, and faults exactly when some segment gets a last frame but no table; in every case the protected pages read as before, the pinned ones map to themselves and only pages of the image are mapped anew |
| ElfLoader.Loader.ElfLoad | kernel/elf.c:30-112 | success, and a page fault, each exactly under a condition on heap, file, header, tables and frames; on success every segment is as the walk shows it and writable from ring 3; a rejected file leaves tables and frames alone; on every return the heap's pages hold the block list there was, after a fault that with the buffer taken; live payloads and kernel data always read as before |
| ElfSpec.OnePageFaults | kernel/elf.c:79-98 | an accepted image of one page at 0x800000 that ends in a page fault when one frame is left and directory entry 2 has no table |
| ElfSpec.NoNewTables | kernel/elf.c:79-96 | an image whose tables are all there makes no frame a table, wherever its frames lie |
| ElfLoader.Loader.UserImage | kernel/elf.c:79-96 | after boot an image between 4 MB and 8 MB needs nothing within reach but the kernel and the heap's table |
| ElfLoader.Loader.Boot | kernel/kernel.c:226-228 | from pmm_init over vmm_init and heap_init to a load, on any machine with memory for kernel, user stack and heap: success, and a page fault, each exactly under a condition on file and frames; kernel and tables must lie in the identity map and the image clear of them |
| ElfLoader.Loader.BootHeap | kernel/kernel.c:226-228 | after the three initialisations the heap is one free block, directory entries 0, 1 and 4 have tables, and exactly the frames behind the kernel are taken, in order |
| SchedSpec.FirstAlive | kernel/process.c:124-132 | the first process in a range that is not dead |
| SchedSpec.StepSafe | kernel/process.c:27-145 | every step keeps the state safe, drops nobody, revives nobody and switches only to a live process |
| SchedSpec.StepExactly | kernel/process.c:52-145 | who is alive after each step: whoever was, except the current process at its exit; a successful create appends one ready process with the next pid; a tick turns to the next live process going round and to nobody else, and only a tick moves on |
| SchedSpec.StepOnly | kernel/process.c:52-145 | a safe state with the same current process and the same processes alive is the state after the step |
| SchedSpec.AliveUntilExit | kernel/process.c:109-145 | over every run a live process stays alive exactly until it exits itself |
| SchedSpec.ExitedIsGone | kernel/process.c:109-145 | a process that has exited and been switched away from is never current again |
| SchedSpec.RunSafe | kernel/process.c:27-145 | safety in every state of every run from boot; dead stays dead |
| SchedSpec.PidsDistinct | kernel/process.c:65 | two processes share a pid only if 2^32 were created between them |
| SchedSpec.NextIsNearer | kernel/process.c:124-134 | turning to the next live process brings every waiting live one nearer by exactly one |
| SchedSpec.StepDistance | kernel/process.c:99-145 | a tick brings a waiting process one nearer, an exit or a failed create moves nobody, a new process adds at most one |
| SchedSpec.BoundedWaiting | kernel/process.c:99-145 | in every run with as many ticks as its cyclic distance in live processes plus the processes created, a live process is current at some point |
| ProcessList.Scheduler.Init | kernel/process.c:27-50 | the list holds the kernel's process, running, with pid 0 |
| ProcessList.Scheduler.Create | kernel/process.c:52-107 | appends one ready process at the end of the list, or changes nothing when memory is out |
| ProcessList.Scheduler.Exit | kernel/process.c:109-114 | the current process becomes dead, the list stays |
| ProcessList.Scheduler.FindNext | kernel/process.c:124-132 | the skipping loop ends and finds the next live process, wrapping round, or the current one |
| ProcessList.Scheduler.Tick | kernel/process.c:120-145 | hands over to the next live process and calls for a context switch exactly when there is one |
| ContextSwitch.Machine.DoContextSwitch | kernel/process.s:8-25 | the instructions, one by one, compute Switch |
| ContextSwitch.PopaUndoesPusha | kernel/process.s:8-25 | popa after pusha gives all eight registers back |
| ContextSwitch.Machine.PrepareStack | kernel/process.c:82-97 | the entry point and eight zero words below the stack top, with the stack pointer 36 bytes down |
| ContextSwitch.SwitchSaves | kernel/process.s:10-17 | the switch leaves the old context on the old stack, where the process's slot now points |
| ContextSwitch.SwitchRestores | kernel/process.s:20-25 | the switch returns in the context saved at the new stack pointer |
| ContextSwitch.TickKeeps | kernel/process.c:120-145 | after a switch the process left is parked with its context and all others as before |
| ContextSwitch.CreateKeeps | kernel/process.c:82-103 | a new process is parked with its entry context and disturbs no other |
| ContextSwitch.SysKeeps | kernel/process.c:52-145 | every step of every interleaving keeps all switched-out processes parked |
| ContextSwitch.Resumes | kernel/process.s:8-25 | a tick that turns to a process puts the processor in the context saved for it, and the stack pointer loaded is never 0 |
| ContextSwitch.ResumeFaithful | kernel/process.c:120-145 | under every interleaving a process gets back the kept registers, stack pointer and return address it had when switched out |
| ContextSwitch.NewProcessEnters | kernel/process.c:82-97 | a new process first runs at its entry point with the stack pointer at its stack top and the kept registers 0 |
| ContextSwitch.BootInv | kernel/process.c:27-47 | the system set up at boot, with 0 in the kernel's slot, satisfies the invariant |
| ProcessMemory.FailedCreate | kernel/process.c:55-63 | a create that finds no memory for record or stack leaves the heap's block list as it was |
| ProcessMemory.HousedLayout | kernel/process.c:55-64 | records and stacks that are different heap payloads do not meet: stacks disjoint, slots distinct, no slot in a stack |
| ProcessMemory.CreateHoused | kernel/process.c:52-64 | the payloads of a new process differ from those of all others |
| ProcessMemory.CreateIsStep | kernel/process.c:52-103 | a create in the heap is a create step of the system of stacks, whose separation is thus derived from the allocator |
| ProcessMemory.CallKeeps | kernel/heap.c:81-124 | every kmalloc, and every kfree of a payload that is no process's, leaves all processes their records and stacks |
| ProcessMemory.StoredWorks | kernel/heap.c:81-124 | the stores of a heap call leave every slot and every other stack alone, since they are payloads that stay live |
| ProcessMemory.StoredImage | kernel/heap.c:81-124 | the words stored make the heap's bytes those of the allocator |
| ProcessMemory.WorldKeeps | kernel/process.c:52-145 | every step of heap and processes together keeps the block list in the processor's memory and is a step of the system of stacks; that heap calls spare stacks and slots, and that new stacks are apart, is derived |
| ProcessMemory.WorldResumes | kernel/process.c:120-145 | over every run mixing heap calls, work and process calls a process gets back the context it was switched out with |
| ProcessMemory.WorldEnters | kernel/process.c:82-97 | a process spawned in such a run first runs at its entry with the stack pointer at the top of the stack the heap gave it |
| ProcessMemory.BootWorld | kernel/process.c:27-47 | the world after process_init, its record in the heap that lies in memory, satisfies the invariant |

## Left out

- Drivers, terminal, shell, kprintf, GDT, IDT, TSS, user mode, system calls and user programs: port I/O, formatting and descriptor set-up; they would add only easy members. `ata_read_sector` and `ata_write_sector` are atomic reads and updates of one sector.
- The interrupt flag, PIC acknowledgement, TLB flushes and the loads of CR0 and CR3.
- Opening files, malloc and printing in mkdisk: the input bytes and the image's sectors are given.
- `fs_list` only prints. `kprintf` calls are dropped everywhere.
- Corrupt on-disk inodes: the file system operations require an inode table in the order that formatting, the kernel and mkdisk leave it in (`TableOk`).
- FsRefine.RunRefines: created names are at most 63 characters and write sizes do not wrap; what the code does beyond is stated by FsRuns.LongNameCreate and FsRuns.WrappedSize.
- Mkdisk.MakeCrashAtomic: the name cut to 63 characters is absent, which mkdisk does not check; Mkdisk.MakeKeepsNames covers the other case.
- KernelHeap.Heap.Kfree: the pointer is null or a live payload; double frees and foreign pointers are excluded, as are clients that write outside their payloads.
- Pmm.FrameAllocator.FreeFrame: only frames in use, other than frame 0, are given back.
- Vmm.KernelVm.Map: flags lie in the low 12 bits; the directory and the table written must be mapped to themselves (`TableReach`), where the source would fault or write another page.
- ElfLoader.Loader.ElfLoad: an accepted image is well formed (page-aligned, page-disjoint segments inside the bytes read, clear of the heap's and the kernel's pages); the kernel's pages, the page tables and the frames about to become tables are mapped to themselves and outside the image (`Pinned`, `TablesOf`); that `fs_read` finds the file is a parameter.
- ProcessList.Scheduler.Create: whether its two `kmalloc` calls succeed is a parameter here (ProcessMemory.WorldKeeps covers them on the heap), and file descriptors are not modelled.
- ContextSwitch.ResumeFaithful: memory is words at 4-aligned addresses; each process writes only its own stack and memory outside all stacks and saved stack pointers; the switch is entered with room for 32 bytes on the current stack.
