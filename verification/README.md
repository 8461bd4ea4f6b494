# Nachos kernel, verified in Dafny

This project models the parts of a Nachos tree (`nachos64/code`) with the most state and
branching, and proves what they promise.

- **Demand pager** (`PagerState`, `PagerSpec`, `PagerProofs`, `PagerClocks`, `PagerAccess`,
  `PagerLayout`, `PagerSwitch`, `PagerRuns`, `PagerLoss`, `PagerLimit`,
  `PagerMarks`, `PagerFill`, `PagerMachine`, `Clock`):
  `AddrSpace::load`, the software TLB, the inverted page table, the swap file, both second-chance clocks, address translation
  and context switches. Main result: paging is transparent. Programs see a flat memory.
- **File system** (`SectorFiles`, `DiskCodec`, `BitMap`, `FreeMap`, `Directory`, `Volume`,
  `FileSystem`, `FileRuns`): byte-granular files over sectors, free map, directory and headers, down to
  the bytes on disk. Main results: no sector leaks or is shared over any run, and the file
  system behaves as a map from names to contents.
- **Threads and synchronisation** (`Kernel`, `KernelMachine`, `Lock`, `SynchList`,
  `Philosophers`, `SynchDiskProtocol`): transition systems whose steps are the regions run
  with interrupts off, or single statements under a lock; results hold over all
  interleavings. `Lock` is built on the semaphores of `Kernel`, and `SynchDiskProtocol` on both;
  the other monitors use the lock's owner, which `OwnerSimulates` maps every run of it to.
- **Machine** (`Interrupts`, `InterruptMachine`, `LinkedList`, `Multiply`, `DiskTiming`): the
  event queue, the sorted linked list, the shift-and-add multiplier and the disk's latency.

Code that updates objects in place is modelled by classes whose methods are proved against
functions on values; the theorems are about those functions. Executables, clocks, handlers'
requests, uninitialised memory and the choice of the next thread are parameters.

Where code and expectation differ:

- `AddrSpace::SaveState` copies bits from invalid TLB slots too. It can lose a write:
  `SaveStateLosesWrite` gives the run, down to the wrong value read, and `SwitchExact` the
  exact condition, under which the runs of `PagingTransparent` switch.
- `load` reads data pages from the code segment's place in the file and ignores the data
  segment's. `SuppliesExact` says exactly when that is right; `PaddedDataMisread` is a
  header for which it is not.
- Most paths of `load` leave in a frame of bss or stack what another page had there.
  `LoadedExact` gives every byte and `AnonymousZero` exactly when such a page starts as zeros.
- `FileHeader::Allocate` does not check a file's size against its table of 30 sectors.
  `CreateStaysInside` proves that `Create` stays inside it if and only if `Creatable` holds,
  and `FormattedOverruns` that it does not for any size from 3841 to 130304 on any freshly
  formatted disk. The other results about `Create` are for when it does.
- A handle may outlive its file. `StaleHandleHarmless` and `StaleAfterReuse` say when writing
  through it is harmless and when it changes another file.
- The only assertion of `load` that can fire is the one for a full swap file;
  `SafeReadCompletes` and `Pager.Load` say exactly when.

## Model

| member | source | states |
|---|---|---|
| `PagerRuns.PagingTransparent` | nachos64/code/userprog/addrspace.cc:521-895 | over every run of reads, writes, safe context switches and new address spaces from a state that simulates a flat memory, each value read equals what the flat memory receiving the same writes holds, wherever it promises the bytes, and the last state still simulates it; nothing is assumed of the states between |
| `PagerRuns.StepSimulates` | nachos64/code/machine/translate.cc:87-179 | one operation keeps pager and flat memory in step and they agree on the value read |
| `PagerRuns.ExecInv` | nachos64/code/userprog/addrspace.cc:521-895 | every read, write, safe switch and new space keeps the ownership invariant, whether or not memory is transparent |
| `PagerRuns.NeverStops` | nachos64/code/machine/machine.h:35-38 | no aligned in-range reference, switch or spawn stops the machine while all page tables together hold at most swap size + frames - 1 pages |
| `PagerRuns.BootInv` | nachos64/code/threads/system.cc:95-104 | after initialisation the ownership invariant holds and memory is transparent with nothing written |
| `PagerLayout.LayoutCovers` | nachos64/code/userprog/addrspace.cc:112-146 | for every NOFF header the page ranges are exact: no fewer and no more pages than the code, the data and the whole space with its 1024-byte stack need at 128 bytes a page, and the top seven are anonymous |
| `PagerLayout.SuppliesExact` | nachos64/code/userprog/addrspace.cc:545-720 | whatever the file holds, load supplies a segment's bytes at its virtual addresses if and only if it is empty, or it lies in memory as in the file counted from the code segment's place there, on file-backed pages |
| `PagerLayout.SegmentsExact` | nachos64/code/bin/noff.h:12-25 | for the code: empty or at address 0; for data, with the code at 0: displaced from its place in the file as the code is, on file-backed pages |
| `PagerLayout.ContiguousInPlace` | nachos64/code/userprog/addrspace.cc:144-146 | data that follows the code in memory and in the file is supplied |
| `PagerLayout.PaddedDataMisread` | nachos64/code/userprog/addrspace.cc:637-637 | a header whose data is on a page of its own but right behind the code in the file: the program reads other bytes |
| `PagerLayout.FlatStarts` | nachos64/code/bin/noff.h:12-25 | where a segment is in place, the flat memory promised to the program starts with the segment's bytes |
| `PagerProofs.LoadedKeeps` | nachos64/code/userprog/addrspace.cc:521-895 | every load keeps the ownership invariant, the flat memory and every dirty mark, and leaves the faulting page in the TLB |
| `PagerProofs.EvictedKeeps` | nachos64/code/userprog/addrspace.cc:567-608 | an eviction keeps all of that, clears exactly the victim's frame bit, and the next BitMap::Find returns exactly that frame |
| `PagerProofs.CanEvictUnless` | nachos64/code/userprog/addrspace.cc:335-360 | with memory full, eviction goes through if and only if swap is not exhausted |
| `PagerProofs.SwapOutKeeps` | nachos64/code/userprog/addrspace.cc:335-360 | moving a dirty victim to a free swap slot keeps ownership, all promised bytes and all dirty marks |
| `PagerProofs.DropKeeps` | nachos64/code/userprog/addrspace.cc:567-608 | dropping a clean victim loses no promised byte |
| `PagerProofs.UnloadKeeps` | nachos64/code/userprog/addrspace.cc:504-517 | taking the victim out of the TLB moves its dirty bit to the page table, so nothing is forgotten |
| `PagerFill.UnloadSaves` | nachos64/code/userprog/addrspace.cc:504-517 | exactly the victim's slot becomes invalid and its entry gets the slot's use and dirty bits; a victim in no slot changes nothing |
| `PagerFill.RemovedEntry` | nachos64/code/userprog/addrspace.cc:335-360 | a victim keeps its use and dirty bits, goes to the first free swap slot if dirty and nowhere otherwise, and no other entry changes |
| `PagerFill.FetchedEntry` | nachos64/code/userprog/addrspace.cc:545-560 | a fetched page keeps its use and dirty bits and no other entry changes |
| `PagerFill.LoadedExact` | nachos64/code/userprog/addrspace.cc:521-895 | every byte of a page just loaded: from its swap slot if it was written, from the executable where that supplies it, zero where an anonymous page displaced a clean one, and otherwise what the frame last held |
| `PagerFill.AnonymousZero` | nachos64/code/userprog/addrspace.cc:714-790 | a page of bss or stack starts as zeros if and only if load evicts a clean page for it or the frame held zeros |
| `PagerProofs.FetchedKeeps` | nachos64/code/userprog/addrspace.cc:362-386 | filling a free frame from swap, file or nothing keeps ownership and gives the page its promised bytes; a swap slot read back is released |
| `PagerProofs.TlbClockKeeps` | nachos64/code/userprog/addrspace.cc:390-424 | the TLB clock keeps everything and leaves the dirty bit of the slot it returns in the page table |
| `PagerProofs.InstallKeeps` | nachos64/code/userprog/addrspace.cc:426-446 | entering a resident page into the slot the clock returned keeps everything |
| `PagerProofs.FrameClockSynced` | nachos64/code/userprog/addrspace.cc:459-503 | the frame clock changes nothing but use bits and its hand |
| `PagerProofs.FullyNamed` | nachos64/code/userprog/addrspace.cc:459-503 | when no frame is free every inverted page table entry names a valid page, so the frame clock never follows a null pointer |
| `Clock.VictimExact` | nachos64/code/userprog/addrspace.cc:459-503 | a second-chance sweep picks the first entry in ring order from the hand whose bit is clear, or the hand itself if all are set, clears exactly the bits passed, and passes at most one whole turn |
| `PagerClocks.FrameClockPicks` | nachos64/code/userprog/addrspace.cc:459-503 | that choice for frames, on the use bits of the pages the inverted page table names |
| `PagerClocks.FrameClockClears` | nachos64/code/userprog/addrspace.cc:459-503 | exactly the owners of the frames passed lose their use bits and nothing else changes but the hand |
| `PagerClocks.TlbClockPicks` | nachos64/code/userprog/addrspace.cc:390-424 | the first invalid TLB slot, else that choice on the slots' use bits |
| `PagerClocks.TlbClockSaves` | nachos64/code/userprog/addrspace.cc:390-457 | every slot visited stores its dirty bit in its page's entry; passed slots lose their use bit to the entry, the victim's entry gets a clear one, slots not reached change nothing |
| `PagerAccess.ReadMemExact` | nachos64/code/machine/translate.cc:87-122 | a read that completes returns the decoded promised bytes and keeps the flat memory |
| `PagerAccess.WriteMemExact` | nachos64/code/machine/translate.cc:142-174 | a write that completes turns the flat memory into the old one overlaid with the encoded value |
| `PagerAccess.StoreTransparent` | nachos64/code/machine/translate.cc:142-174 | storing into the frame of a dirty resident page, without crossing its end, updates exactly those bytes of the flat memory |
| `PagerAccess.FaultKeeps` | nachos64/code/userprog/exception.cc:642-649 | a page fault keeps the flat memory and leaves the faulting page in the TLB |
| `PagerAccess.SafeReadCompletes` | nachos64/code/machine/translate.cc:124-127 | for every address of the space a retried read stops the machine if and only if it is misaligned or needs a swap slot and none is free; it takes at most two attempts |
| `PagerAccess.SafeWriteCompletes` | nachos64/code/machine/translate.cc:176-179 | the same for writes |
| `PagerAccess.SafeReadExact` | nachos64/code/machine/translate.cc:124-127 | a retried read returns the promised bytes |
| `PagerAccess.SafeWriteExact` | nachos64/code/machine/translate.cc:176-179 | a retried write updates the flat memory with the encoded value |
| `PagerAccess.DecodeEncode` | nachos64/code/machine/translate.cc:87-174 | the little-endian encoding of a value decodes to that value modulo the access size |
| `PagerSwitch.FullTlbSafe` | nachos64/code/userprog/addrspace.cc:235-256 | a TLB with all slots valid meets that condition |
| `PagerSwitch.SwitchExact` | nachos64/code/userprog/addrspace.cc:235-289 | a switch keeps the ownership invariant and forgets no dirty page if and only if, for each page named by a slot, the last slot naming it is dirty if the page is and is clean if the page is absent and clean |
| `PagerSwitch.SwitchKeeps` | nachos64/code/threads/scheduler.cc:90-135 | under that condition a switch between address spaces keeps ownership, all dirty marks and the flat memory of every space |
| `PagerSwitch.SwitchedResident` | nachos64/code/userprog/addrspace.cc:235-289 | slots that name resident pages only can spoil dirty marks but not ownership |
| `PagerFill.SwitchedRest` | nachos64/code/userprog/addrspace.cc:235-320 | a switch empties the TLB, resets its clock and touches no memory, frame or swap slot |
| `PagerSwitch.StaleSlotForgets` | nachos64/code/userprog/addrspace.cc:235-256 | whenever the last slot naming a page is clean, the switch takes the page for clean |
| `PagerLoss.CleanVictimDropped` | nachos64/code/userprog/addrspace.cc:591-608 | in every state a resident page that is clean and not in the TLB is dropped, not swapped out, when it is the victim |
| `PagerLoss.AbsentCleanReads` | nachos64/code/userprog/addrspace.cc:545-560 | in every state an absent, clean page reads as the executable, whatever was written to it |
| `PagerLoss.SaveStateLosesWrite` | nachos64/code/userprog/addrspace.cc:235-289 | for every executable with code, every address of its first page the file supplies and every value: a run from boot of a write, a switch away and back, four reads and a read of the written address returns the file's byte where flat memory holds the value |
| `PagerSwitch.SpawnKeeps` | nachos64/code/userprog/addrspace.cc:99-146 | constructing an address space disturbs no other |
| `PagerSwitch.SwapSuffices` | nachos64/code/userprog/addrspace.cc:335-360 | while all page tables hold at most swap size + frames - 1 pages, a needed swap slot is always found, even though the page being loaded may occupy one |
| `PagerLimit.DirtyLimit` | nachos64/code/userprog/addrspace.cc:335-360 | in every state with the ownership invariant at most swap size + frames pages are dirty, and at that many the next victim finds no swap slot |
| `PagerLimit.WriteLimit` | nachos64/code/userprog/addrspace.cc:335-386 | no run completes more writes than to swap size + frames different pages, and a run that reaches that many ends with swap exhausted |
| `PagerMarks.ReferenceMarks` | nachos64/code/machine/translate.cc:253-263 | a completed reference, from the state with its page in the TLB, marks the slot naming the page used, and dirty if and only if it was or the reference writes; no other slot, entry, frame or map changes, and a read changes no byte |
| `PagerMarks.ReferenceDirties` | nachos64/code/machine/translate.cc:253-263 | in every state a page is dirty after a completed reference if and only if it was before, or the reference wrote to it, whatever was loaded and evicted on the way |
| `PagerMarks.DirtyExact` | nachos64/code/machine/translate.cc:253-263 | over every run of reads, writes and new spaces from boot or any state where this holds, the dirty pages are exactly the pages written to |
| `PagerMarks.FewWritesNeverStop` | nachos64/code/userprog/addrspace.cc:335-360 | in such a run no aligned reference stops the machine while no more pages were written to than there are swap slots, however many pages there are |
| `PagerMarks.ReadsNeverStop` | nachos64/code/userprog/addrspace.cc:567-608 | from boot every sequence of aligned reads completes, however many pages it touches |
| `PagerLimit.SwapRunsOut` | nachos64/code/userprog/addrspace.cc:335-360 | the bound of NeverStops is tight: every program of swap size + frames pages or more, from boot, completes a write to each of that many pages, and then every reference to an absent page, of which there are some, stops the machine |
| `PagerMachine.Pager.constructor` | nachos64/code/threads/system.cc:95-104 | establishes the boot state, with the invariant |
| `PagerMachine.Pager.Load` | nachos64/code/userprog/addrspace.cc:521-895 | load ends in exactly the specified state, and stops the machine exactly when the page is absent and swap is exhausted |
| `PagerMachine.Pager.LoadAbsent` | nachos64/code/userprog/addrspace.cc:545-895 | the cases of load for a page that is not resident |
| `PagerMachine.Pager.Evict` | nachos64/code/userprog/addrspace.cc:567-608 | the eviction sequence computes the specified eviction |
| `PagerMachine.Pager.GetNextSCTLB` | nachos64/code/userprog/addrspace.cc:390-424 | the loop returns the specified slot and state |
| `PagerMachine.Pager.GetNextSCSWAP` | nachos64/code/userprog/addrspace.cc:459-503 | the loop returns the specified victim and state |
| `PagerMachine.Pager.UseThisTLBIndex` | nachos64/code/userprog/addrspace.cc:426-446 | the slot becomes a copy of the page's entry and nothing else changes |
| `PagerMachine.Pager.SaveVictimTLBInfo` | nachos64/code/userprog/addrspace.cc:448-457 | the slot's dirty bit and the given use bit go to its page's entry and nothing else changes |
| `PagerMachine.Pager.UpdateSwapVictimInfo` | nachos64/code/userprog/addrspace.cc:504-517 | the scan of the TLB finds and drops the slot mapped to the victim's frame, saving its bits |
| `PagerMachine.Pager.WriteIntoSwap` | nachos64/code/userprog/addrspace.cc:335-360 | the victim's page moves to the first free swap slot; fails exactly when there is none |
| `PagerMachine.Pager.ReadFromSwap` | nachos64/code/userprog/addrspace.cc:362-386 | the frame receives the swap slot's page and the slot is released |
| `PagerMachine.Pager.ClearPhysicalPage` | nachos64/code/userprog/addrspace.cc:291-302 | exactly the frame's bytes become zero |
| `PagerMachine.Pager.Translate` | nachos64/code/machine/translate.cc:196-266 | the same exception or physical address as specified; on success exactly the slot naming the page is marked used, and dirty if writing |
| `PagerMachine.Pager.ReadMem` | nachos64/code/machine/translate.cc:87-122 | one attempt: the specified value, retry or stop |
| `PagerMachine.Pager.WriteMem` | nachos64/code/machine/translate.cc:142-174 | one attempt: the specified store, retry or stop |
| `PagerMachine.Pager.SafeReadMem` | nachos64/code/machine/translate.cc:124-127 | the retry loop makes at most two attempts and computes the specified outcome |
| `PagerMachine.Pager.SafeWriteMem` | nachos64/code/machine/translate.cc:176-179 | the retry loop makes at most two attempts and computes the specified outcome |
| `PagerMachine.Pager.SaveState` | nachos64/code/userprog/addrspace.cc:235-256 | the loop over all slots, in order, computes the specified saved state |
| `PagerMachine.Pager.RestoreState` | nachos64/code/userprog/addrspace.cc:266-289 | the new space is current and its TLB empty |
| `SectorFiles.OpenFile.ReadAt` | nachos64/code/filesys/openfile.cc:113-141 | for every non-negative position returns the file's bytes from there, none if and only if the request is not positive or starts at or past the end, otherwise as many as asked for or up to the end |
| `SectorFiles.OpenFile.WriteAt` | nachos64/code/filesys/openfile.cc:143-183 | the file becomes its old contents with the data spliced in, whatever the alignment: nothing if and only if there is no data or the position is at or past the end, otherwise all of it or up to the end; no sector outside the file changes |
| `SectorFiles.OpenFile.Read` | nachos64/code/filesys/openfile.cc:71-77 | reads at the seek position, which advances by the bytes read |
| `SectorFiles.OpenFile.Write` | nachos64/code/filesys/openfile.cc:79-85 | writes at the seek position, which advances by the bytes written; no sector outside the file changes |
| `SectorFiles.OpenFile.ReadSectors` | nachos64/code/filesys/openfile.cc:131-135 | the loop fills the buffer with the file's sectors in order |
| `SectorFiles.OpenFile.PrepareBuffer` | nachos64/code/filesys/openfile.cc:160-174 | partially modified first and last sectors are read in, so the buffer holds old bytes around the new data |
| `SectorFiles.OpenFile.WriteSectors` | nachos64/code/filesys/openfile.cc:176-181 | the loop writes exactly the buffer's sectors back |
| `SectorFiles.OtherFileUnchanged` | nachos64/code/filesys/openfile.cc:143-183 | a write inside one file's data sectors leaves every file with other data sectors unchanged |
| `DiskCodec.HeaderRoundTrip` | nachos64/code/filesys/filehdr.cc:77-94 | a header read back from its sector is the header written |
| `DiskCodec.HeaderLayout` | nachos64/code/filesys/filehdr.h:60-63 | a header's sector is its length, its number of sectors and 30 sector numbers as little-endian 32-bit ints |
| `DiskCodec.TableRoundTrip` | nachos64/code/filesys/directory.cc:63-80 | a directory table read back from its file is the table written |
| `DiskCodec.EntryLayout` | nachos64/code/filesys/directory.h:32-39 | entry i of the directory is the flag, the sector and the name at offsets 0, 4 and 8 of its 20 bytes |
| `FreeMaps.MapRoundTrip` | nachos64/code/userprog/bitmap.cc:148-165 | the bits read back from the bytes of the words are the bits of the words |
| `FreeMaps.FetchMap` | nachos64/code/userprog/bitmap.cc:148-152 | the map becomes the one stored in the file |
| `FreeMaps.WriteMap` | nachos64/code/userprog/bitmap.cc:161-165 | the file then holds the map; no other sector changes |
| `FreeMaps.FileHeader.Allocate` | nachos64/code/filesys/filehdr.cc:41-52 | succeeds if and only if enough sectors are clear; then takes the lowest clear ones, in order, and otherwise takes none; of any size for which the header's table is not overrun |
| `FreeMaps.FileHeader.Deallocate` | nachos64/code/filesys/filehdr.cc:61-68 | clears exactly the file's data sectors; its assertion holds at every sector |
| `Directories.StrNEqualKey` | nachos64/code/filesys/directory.cc:90-97 | on a stored name, strncmp over nine characters compares the padded nine-character prefixes |
| `Directories.AddedKeeps` | nachos64/code/filesys/directory.cc:129-143 | adding an absent name files exactly that prefix and changes no other lookup |
| `Directories.RemovedKeeps` | nachos64/code/filesys/directory.cc:153-162 | removing an entry unfiles exactly its prefix and changes no other lookup |
| `Directories.Directory.constructor` | nachos64/code/filesys/directory.cc:38-44 | an empty directory, whatever memory held |
| `Directories.Directory.FindIndex` | nachos64/code/filesys/directory.cc:90-97 | the first entry in use under the name's prefix, or -1 |
| `Directories.Directory.Find` | nachos64/code/filesys/directory.cc:108-116 | the header sector filed under the name, or -1 |
| `Directories.Directory.Add` | nachos64/code/filesys/directory.cc:129-143 | succeeds if and only if the name is absent and an entry is unused; fills the first unused entry |
| `Directories.Directory.Remove` | nachos64/code/filesys/directory.cc:153-162 | succeeds if and only if the name is present; frees exactly its entry |
| `Volumes.LowestExact` | nachos64/code/filesys/filehdr.cc:41-52 | sectors handed out while NumClear allows are clear, strictly increasing, and leave no clear sector below the last |
| `Volumes.FormatInv` | nachos64/code/filesys/filesys.cc:80-143 | a formatted volume satisfies the integrity invariant |
| `Volumes.FormatFits` | nachos64/code/filesys/filesys.cc:100-101 | both Allocate assertions of formatting hold |
| `Volumes.CreateInv` | nachos64/code/filesys/filesys.cc:174-215 | Create keeps the invariant; a failed Create changes nothing |
| `Volumes.CreateSucceeds` | nachos64/code/filesys/filesys.cc:174-215 | Create succeeds if and only if the name is new, the directory has room and free sectors cover header and data; it then uses up exactly that many |
| `Volumes.CreateStaysInside` | nachos64/code/filesys/filehdr.cc:41-52 | for every volume, name and size: all entries Create stores in the header's table lie inside its 30 if and only if the volume is Creatable for them, which a caller can check before the call |
| `Volumes.FormattedOverruns` | nachos64/code/filesys/filehdr.cc:41-52 | on every formatted disk, Create of any name with 3841 to 130304 bytes stores past the end of the table |
| `Volumes.RemoveInv` | nachos64/code/filesys/filesys.cc:257-288 | Remove keeps the invariant, succeeds if and only if the name is present, and frees exactly the header and data sectors |
| `Volumes.RemoveDefined` | nachos64/code/filesys/filehdr.cc:61-68 | a name in the directory has a valid header, all of whose sectors are marked and none of which is a system sector |
| `Volumes.RemoveUndoesCreate` | nachos64/code/filesys/filesys.cc:174-288 | Remove after Create restores the free map, the headers and every directory lookup |
| `Volumes.NoLeaksNoSharing` | nachos64/code/filesys/filesys.cc:80-288 | after any sequence of Create and Remove on a formatted disk a sector is marked if and only if some file owns it, and no sector has two owners |
| `FileSystems.OneVolume` | nachos64/code/filesys/filesys.cc:80-143 | the bytes of a disk determine the volume on it |
| `FileSystems.FileWritten` | nachos64/code/filesys/openfile.cc:143-183 | writing through an open file keeps the volume and every other name's contents |
| `FileSystems.CreateContents` | nachos64/code/filesys/filesys.cc:174-215 | a created file can be read with the size asked for and every other name reads as before |
| `FileSystems.RemoveContents` | nachos64/code/filesys/filesys.cc:257-288 | a removed name reads as absent and every other name as before |
| `FileSystems.CreateFlushed` | nachos64/code/filesys/filesys.cc:205-207 | writing header, directory and free map in that order leaves a disk holding the new volume |
| `FileSystems.RemoveFlushed` | nachos64/code/filesys/filesys.cc:282-283 | writing free map and directory in that order leaves a disk holding the new volume |
| `FileSystems.FileSystem.Format` | nachos64/code/filesys/filesys.cc:80-143 | whatever the disk held, it now holds a valid volume from which no name can be read |
| `FileSystems.FileSystem.Mount` | nachos64/code/filesys/filesys.cc:137-142 | opening a formatted disk reads the same contents |
| `FileSystems.FileSystem.Create` | nachos64/code/filesys/filesys.cc:174-215 | exactly the volume operation; failure leaves every byte of the disk unchanged; success makes the name readable with the size asked for and changes no other name |
| `FileSystems.FileSystem.Remove` | nachos64/code/filesys/filesys.cc:257-288 | exactly the volume operation; the name is gone and no other name changes |
| `FileSystems.FileSystem.Open` | nachos64/code/filesys/filesys.cc:227-241 | null if and only if the name is absent; otherwise a file whose bytes are the name's contents |
| `FileRuns.RunActs` | nachos64/code/filesys/filesys.cc:80-288 | over every run of Create, Remove, writes and reads from a disk that holds a volume, every disk holds one and every call acts on its own name as on one map from names to contents, and on no other name |
| `FileRuns.RunHistory` | nachos64/code/filesys/filesys.cc:80-288 | every run gives every name a history on its own: calls on it act as on a map, calls on other names leave it |
| `FileRuns.ReadsAll` | nachos64/code/filesys/openfile.cc:113-141 | in such a history a read of at least the file's length from position 0 returns the whole contents |
| `FileRuns.ReadsBack` | nachos64/code/filesys/openfile.cc:113-183 | in such a history a read returns what the last write at the same place stored, unless a call in between was on the same name |
| `FileRuns.StepActs` | nachos64/code/filesys/filesys.cc:174-288 | one call, given as the writes it makes to the disk, keeps the volume and acts as on a map |
| `FileRuns.Perform` | nachos64/code/filesys/filesys.cc:174-288 | every call of Create and Remove, and every write or read through a file just opened, is such a step, and leaves the file system ready for the next |
| `FileRuns.RemovedUnowned` | nachos64/code/filesys/filesys.cc:278-283 | right after a Remove the file's data sectors belong to no file |
| `FileRuns.StaleHandleHarmless` | nachos64/code/filesys/openfile.cc:143-183 | writing through a file opened before its Remove changes nothing anyone can read while no file owns one of its sectors |
| `FileRuns.StaleHandleHarms` | nachos64/code/filesys/openfile.cc:143-183 | once a file owns one of its data sectors, there is a position inside the old file and a byte such that every disk WriteAt of it can leave differs in that file |
| `FileRuns.SectorsReused` | nachos64/code/filesys/filehdr.cc:41-52 | after Create, Remove and Create the new file's data lies in the old file's sectors, as far as both reach |
| `FileRuns.StaleAfterReuse` | nachos64/code/filesys/filesys.cc:174-288 | so after any Create, Open, Remove and Create of non-empty files such a write through the old handle changes the new file |
| `BitMaps.BitMap.constructor` | nachos64/code/userprog/bitmap.cc:20-27 | all bits clear |
| `BitMaps.BitMap.Mark` | nachos64/code/userprog/bitmap.cc:46-51 | sets exactly that bit |
| `BitMaps.BitMap.Clear` | nachos64/code/userprog/bitmap.cc:60-65 | clears exactly that bit |
| `BitMaps.BitMap.Test` | nachos64/code/userprog/bitmap.cc:74-83 | whether the bit is set |
| `BitMaps.BitMap.Find` | nachos64/code/userprog/bitmap.cc:94-103 | the first clear bit, which becomes set, or -1 with nothing changed |
| `BitMaps.BitMap.NumClear` | nachos64/code/userprog/bitmap.cc:111-119 | the number of clear bits |
| `BitMaps.FindIffClear` | nachos64/code/userprog/bitmap.cc:94-119 | Find succeeds if and only if NumClear is positive |
| `Kernels.EveryThreadInOnePlace` | nachos64/code/threads/scheduler.cc:53-135 | in every run from boot a thread forked and not finished is running, ready, or in one semaphore queue: exactly one of these, exactly once |
| `Kernels.StepConserves` | nachos64/code/threads/thread.cc:93-236 | every step keeps that conservation |
| `Kernels.RunsInTurn` | nachos64/code/threads/scheduler.cc:70-135 | a ready thread with k others ahead of it runs at the (k+1)-th dispatch |
| `Kernels.WokenInTurn` | nachos64/code/threads/synch.cc:86-99 | a thread asleep on a semaphore with k others ahead of it is woken by the (k+1)-th V and not before; that V puts it at the end of the ready list |
| `Kernels.StepReady` | nachos64/code/threads/thread.cc:183-236 | a dispatch takes the head of the ready list; every other step only appends to it |
| `Kernels.StepSems` | nachos64/code/threads/synch.cc:64-98 | every step keeps, for every semaphore: value = initial + Vs - completed Ps, never negative; and while threads sleep, value is at most the number of woken threads that have not tested again |
| `Kernels.StepStatus` | nachos64/code/threads/scheduler.cc:53-60 | thread statuses always match the places threads are in |
| `Kernels.RunInv` | nachos64/code/threads/synch.cc:64-98 | all of this holds throughout every run from boot |
| `Kernels.SemaphoreSteps` | nachos64/code/threads/synch.cc:64-98 | a step changes a semaphore's value only by a V adding one or by the running thread's P taking one from a positive value |
| `KernelMachines.Machine.ReadyToRun` | nachos64/code/threads/scheduler.cc:53-60 | marks ready and appends, nothing else |
| `KernelMachines.Machine.FindNextToRun` | nachos64/code/threads/scheduler.cc:70-74 | removes and returns the head of the ready list, or nothing |
| `KernelMachines.Machine.Fork` | nachos64/code/threads/thread.cc:93-111 | exactly the Fork step |
| `KernelMachines.Machine.Yield` | nachos64/code/threads/thread.cc:183-199 | exactly the Yield step, including the case of no other ready thread |
| `KernelMachines.Machine.Sleep` | nachos64/code/threads/thread.cc:220-236 | idles, serving interrupts, until one makes a thread ready, then exactly the Dispatch step |
| `KernelMachines.Machine.TestValue` | nachos64/code/threads/synch.cc:69-73 | exactly one turn of P's loop: consume the value, or queue up and give up the CPU |
| `KernelMachines.Machine.V` | nachos64/code/threads/synch.cc:87-98 | exactly the V step |
| `KernelMachines.Machine.Finish` | nachos64/code/threads/thread.cc:152-163 | exactly the Finish step |
| `Locks.MutualExclusion` | nachos64/code/threads/synch.cc:125-165 | in every interleaving at most one thread is between Acquire and Release, the mutex is worth one exactly when there is none, and a non-null lockHolder is the thread inside |
| `Locks.LockSteps` | nachos64/code/threads/synch.cc:144-158 | a thread enters only while none is inside, and only the one inside leaves |
| `Locks.DoInv` | nachos64/code/threads/synch.cc:144-158 | every step keeps mutex value + threads inside = 1 |
| `Locks.OwnerSimulates` | nachos64/code/threads/synch.cc:144-165 | every run of the lock over the kernel is a run of its owner: taken only while free, given up only by the owner; this is the lock the monitors below use |
| `SynchLists.NothingLost` | nachos64/code/threads/synchlist.h:80-111 | in every interleaving the items removed, in order, followed by the list are the items appended, in order; whenever the lock is free and removers wait, the list is no longer than the number of signalled removers in flight |
| `SynchLists.SomeoneComes` | nachos64/code/threads/synch.cc:183-209 | in every run, whenever the lock is free, an item is there and a remover waits, some signalled remover can step |
| `SynchLists.SignalledInTurn` | nachos64/code/threads/synch.cc:198-209 | a remover waiting with k others ahead of it is chosen by the (k+1)-th Signal and not before |
| `SynchLists.StepInv` | nachos64/code/threads/synchlist.h:80-111 | every statement of Append, Remove, Wait and Signal keeps the invariant |
| `SynchLists.SynchList.Signal` | nachos64/code/threads/synch.cc:198-209 | takes the first waiter off the queue and Vs its semaphore, exactly as the steps do; nothing if there is none |
| `SynchLists.SynchList.Append` | nachos64/code/threads/synchlist.h:80-87 | the body between Acquire and Release takes exactly the steps of Append |
| `SynchLists.SynchList.TryRemove` | nachos64/code/threads/synchlist.h:97-111 | one turn of the loop takes the first item, or queues the caller, exactly as the step does |
| `Philosophers.DiningIsSafe` | nachos64/code/threads/dinningph.cc:19-56 | in every interleaving neighbours never eat together, pickup returns only with the caller eating, and whenever the lock is free every hungry philosopher has an eating neighbour |
| `Philosophers.SomeoneMoves` | nachos64/code/threads/threadtest.cc:27-38 | in every reachable state, unless all are away from the table, some philosopher not away can take a step |
| `Philosophers.StepInv` | nachos64/code/threads/dinningph.cc:19-56 | every statement of pickup and putdown keeps the invariant |
| `Philosophers.TestKeeps` | nachos64/code/threads/dinningph.cc:46-56 | test never makes neighbours eat together and leaves no hungry philosopher without an eating neighbour untested |
| `Philosophers.DinningPh.constructor` | nachos64/code/threads/dinningph.cc:3-12 | everyone thinks and nobody waits |
| `Philosophers.DinningPh.TestIt` | nachos64/code/threads/dinningph.cc:46-56 | the array code computes the specified test |
| `Philosophers.DinningPh.Pickup` | nachos64/code/threads/dinningph.cc:19-30 | the body of pickup up to Wait or Release takes exactly its three steps, and says whether it must wait |
| `Philosophers.DinningPh.Putdown` | nachos64/code/threads/dinningph.cc:33-43 | the body of putdown takes exactly its three steps |
| `SynchDisks.OneAtATime` | nachos64/code/filesys/synchdisk.cc:72-109 | on the kernel's semaphores and the lock, in every interleaving of callers, other threads and interrupts: a request is issued only while the disk is inactive, and a call past its wait has had the interrupt of its own request |
| `SynchDisks.OwnCompletion` | nachos64/code/filesys/synchdisk.cc:72-109 | the step that takes a caller past its wait finds its own request, the last one issued, completed |
| `SynchDisks.NextInv` | nachos64/code/machine/disk.cc:115-166 | every step of a caller, of any other thread and of the disk keeps the invariant |
| `EventQueue.RunKeeps` | nachos64/code/machine/interrupt.cc:150-336 | over every run from a state satisfying the invariant, nothing being assumed of later states: the list stays sorted, total = idle + system + user ticks, time never goes back, no handler ran early, pending + served = initial + scheduled from outside + requested by handlers, and after every tick nothing pending is due |
| `EventQueue.AfterKeeps` | nachos64/code/machine/interrupt.cc:150-336 | one outside request, tick or idling keeps all of that |
| `EventQueue.BootKeeps` | nachos64/code/machine/interrupt.cc:60-70 | the simulator as constructed satisfies the invariant with an empty account |
| `EventQueue.OneTickKeeps` | nachos64/code/machine/interrupt.cc:150-179 | OneTick charges 10 ticks of system time in system mode and 1 of user time in user mode and nothing else, leaves nothing pending due, and loses and invents no interrupt |
| `EventQueue.OneTickServes` | nachos64/code/machine/interrupt.cc:150-179 | outside idle mode a tick runs the handlers of exactly the interrupts due after it, in their order on the list |
| `EventQueue.DueLoopYields` | nachos64/code/machine/interrupt.cc:172-196 | after the due-loop a yield is pending if and only if it was before or a handler that ran asked for one |
| `EventQueue.RunCharges` | nachos64/code/machine/interrupt.cc:150-179 | over every run system time is 10 for each tick in system mode, user time 1 for each tick in user mode, and all other time idle |
| `EventQueue.DueLoopKeeps` | nachos64/code/machine/interrupt.cc:169-170 | the due-loop terminates though handlers reschedule, does not move the clock and leaves nothing due (but the lone timer of an idle machine) |
| `EventQueue.DueLoopConserves` | nachos64/code/machine/interrupt.cc:290-336 | pending = initial + requested - served is kept by the due-loop |
| `EventQueue.CheckedShrinks` | nachos64/code/machine/interrupt.cc:290-336 | each firing uses up one due interrupt whatever its handler schedules |
| `EventQueue.IdledReturns` | nachos64/code/machine/interrupt.cc:210-234 | Idle halts if and only if nothing, or only the time-slice timer, is pending |
| `EventQueue.IdledKeeps` | nachos64/code/machine/interrupt.cc:210-234 | when Idle returns the clock stands just at the first interrupt, the difference is idle time, that interrupt's handler ran first, nothing is left due but possibly a lone timer, and no interrupt was lost |
| `EventQueue.ScheduledKeeps` | nachos64/code/machine/interrupt.cc:264-275 | scheduling keeps the list sorted, makes nothing due at once and adds exactly the requests |
| `InterruptMachine.Interrupt.constructor` | nachos64/code/machine/interrupt.cc:60-70 | the initial simulator state |
| `InterruptMachine.Interrupt.Schedule` | nachos64/code/machine/interrupt.cc:264-275 | inserts the interrupt at its time |
| `InterruptMachine.Interrupt.CheckIfDue` | nachos64/code/machine/interrupt.cc:290-336 | exactly the specified firing, including putting back what is not due and the lone timer |
| `InterruptMachine.Interrupt.OneTick` | nachos64/code/machine/interrupt.cc:150-179 | exactly the specified tick and its charge; the thread must yield if and only if that was pending or a handler run in this tick asked for it |
| `InterruptMachine.Interrupt.Idle` | nachos64/code/machine/interrupt.cc:210-234 | exactly the specified idling, or halt |
| `InterruptMachine.Interrupt.SetLevel` | nachos64/code/machine/interrupt.cc:114-127 | turning interrupts on simulates a tick; turning them off, also inside a handler, changes the level only |
| `LinkedList.List.Append` | nachos64/code/threads/list.h:125-138 | on the linked nodes: the contents with the item at the end |
| `LinkedList.List.SortedInsert` | nachos64/code/threads/list.h:229-254 | on the linked nodes: the contents with the item inserted at its place |
| `LinkedList.List.SortedRemove` | nachos64/code/threads/list.h:269-289 | on the linked nodes: the first item and the rest, or nothing |
| `LinkedList.InsertedSorted` | nachos64/code/threads/list.h:229-254 | insertion keeps a sorted list sorted and adds exactly the item |
| `Multiply.Mult` | nachos64/code/machine/mipssim.cc:635-692 | hi:lo is the exact 64-bit product for all signed and all unsigned 32-bit operands |
| `Multiply.MultLoop` | nachos64/code/machine/mipssim.cc:659-679 | the shift-and-add loop with early exit accumulates the product of the magnitudes |
| `DiskTiming.MediaExact` | nachos64/code/machine/disk.cc:179-253 | an unbuffered request ends 500 ticks after the first moment, once the head has crossed the tracks between at 500 ticks each, at which the sector begins to pass; it takes 500 to 31999 ticks |
| `DiskTiming.BufferedExact` | nachos64/code/machine/disk.cc:232-253 | the track buffer serves a read if and only if the head is on the track and the sector has begun to pass since the buffer started |
| `DiskTiming.LatencyExact` | nachos64/code/machine/disk.cc:232-253 | every latency: 500 ticks for such a read, otherwise the unbuffered time |
| `DiskTiming.LatencyBounds` | nachos64/code/machine/disk.cc:232-253 | every request takes 500 to 31999 ticks and the buffer never makes one slower |
| `DiskTiming.ModuloDiffMeaning` | nachos64/code/machine/disk.cc:202-209 | the least number of sectors to wait until the rotational position recurs |
| `DiskTiming.Disk.ReadRequest` | nachos64/code/machine/disk.cc:115-133 | returns the sector's data at once, becomes active and schedules the completion after exactly the computed latency |
| `DiskTiming.Disk.WriteRequest` | nachos64/code/machine/disk.cc:135-154 | replaces exactly that sector, becomes active and schedules the completion after exactly the computed latency |
| `DiskTiming.Disk.HandleInterrupt` | nachos64/code/machine/disk.cc:161-166 | the disk becomes inactive and the client's handler is called once |
| `DiskTiming.Disk.UpdateLast` | nachos64/code/machine/disk.cc:261-271 | records the head position; after a seek the buffer starts at the first sector boundary once the head is there, without one it goes on as it was |

## Left out

- The copying constructor of AddrSpace and Nachos_Fork: copied entries alias frames and swap slots that the inverted page table does not track.
- The destructor of AddrSpace and Nachos_Exit: address spaces are never reclaimed in the model.
- PagerRuns.PagingTransparent: promises nothing of bss and stack until written, since load zeroes them on one path only (PagerFill.AnonymousZero).
- References outside the address space: load indexes the page table without a check, so the model covers addresses inside it.
- PagerSpec: the free-frame and eviction leaves of load for file-backed pages do the same thing for code and for initialised data and are written once; bit maps are sequences of booleans there (the class BitMap is proved to be one).
- PagerSwitch.SwitchExact: covers TLB slots, valid or left over, that name pages of the space; for others the source indexes outside its page table.
- PagerSwitch.SwitchKeeps: the same, as part of the condition SwitchExact shows to be exact.
- PagerMachine.Pager.SaveState: the same.
- Kernels: stacks, SWITCH, stack overflow checks and threadToBeDestroyed are not modelled; a finished thread just leaves.
- Locks, SynchDisks: their operations suspend in the middle, so they are transition systems over values and not methods of objects; of SynchList and DinningPh the methods cover the stretches between suspensions.
- SynchLists, Philosophers: their lock is its owner, taken only while free; that the semaphore lock behaves so is Locks.OwnerSimulates.
- SynchLists: a waiter's semaphore, used by one thread once, is its signalled flag; taking a waiter off the queue and its V are separate steps there, and one step in Philosophers.
- Condition::Broadcast and SynchList::Apply: they would add only easy members.
- Semaphore::Destroy: woken threads test the value again and may sleep again, so it does not free waiters.
- InterruptMachine.Interrupt.Schedule: the pending list is the sequence that LinkedList.List represents, not the linked nodes.
- EventQueue: handlers are a script of requests and yields.
- KernelMachines.Machine.Sleep: what Idle wakes is a script of Vs, with no link to the event queue.
- Order among interrupts due at the same time: putting one back moves it behind its equals.
- FreeMaps.FileHeader.Allocate: excludes the sizes for which the source overruns the header's sector table, and negative sizes, for which it stores a negative length.
- Volumes.CreateInv: the same.
- Volumes.CreateSucceeds: the same.
- FileSystems.FileSystem.Create: the same.
- FileRuns.RunActs: the same, for the Creates of the run.
- FileRuns.Perform: the same.
- FileSystems: entries of a new directory and unused header fields hold whatever memory held; padding bytes of directory entries are written as zero.
- Bytes of the last sector past the end of a file, Seek and Length.
- Crash consistency and concurrent use of the file system, which its own comments disclaim.
- 32-bit overflow of file positions, tick counts and semaphore values.
- System calls, the rest of the MIPS simulator, console, network, timers, preemption, command line, debug printing and the tools under bin.
