# Phoenix OS: verified models of its algorithms

Phoenix OS is a bare-metal kernel that lives on RISC OS FileCore discs. This project models the parts
of it that are algorithms in their own right and proves what they are for:

- the FileCore new map: the bit-level scan, the allocator `MakeID` with its write-through to the map
  bytes, the object reader and writer of `discreader/`, and the kernel's own one-sector lookup;
- the big-directory editor of `discreader/DirUtils.c` and the kernel's reader of the same bytes;
- the kernel heap;
- the sparse-file index of `discreader/SparceFile.c`;
- the network code: TCP, DHCP, DNS and the Internet checksum;
- the run-queue scheduler.

Check everything with `dafny verify dfyconfig.toml`.

## How to read it

Each part has the same two layers. Code that changes state is a class (or a method over an array) whose
fields are those of the source; its methods are proved against functions on values. What the code is for
is then proved about those functions, for all inputs or all runs.

| files | part |
|---|---|
| Arithmetic, Words, Bits, Regions, NetBytes | facts about products and remainders, bytes, little-endian words, bit fields, stretches of a buffer, big-endian fields of frames |
| Geometry, MapScan, MapChain, MapObjects, ZoneClaim, DiscScan, MapBytes, FreeList, DiscMap | the map: geometry, parsing a zone, the free chain, the object store, editing a zone, whole discs, the map as bytes, the linked free list, the class |
| Objects | sector addresses, loading, saving and copying objects |
| KernelLookup | the kernel's lookup, and that it refines the full scan |
| HeapModel, KernelHeap | the heap as a list of blocks; headers, links and the free list in memory |
| SparceLog, SparceFile | the append-only block log; the cache, its searches, reading and writing |
| Collation, BigDirLayout, BigDirParts, BigDirSteps, BigDir | name order, the directory format, its regions, the effect of each memory move, the editor |
| KernelDir, KernelRead | the kernel's directory reader; the way from an object address to an entry, against what `LoadObject` returns |
| Checksum, Dns, Dhcp, Tcp, TcpDelivery, TcpStack, TcpWire | the network code |
| Scheduler | the run queue |

## What the proofs found

Each of these is a theorem; where the code falls short of what it is for, there is an input that shows it
and the exact condition under which it does not.

- `kmalloc` runs `malloc_init` whenever the free list is empty, also on a heap that is merely full
  (kernel/malloc.c:104). `KernelHeaps.EmptyListMeansFull` says exactly when that is, and
  `KernelHeaps.ReissueLiveMemory` shows two live allocations at one address.
- `kmalloc` rounds header and payload to 16 bytes but adds a 4-byte canary (kernel/malloc.c:110).
  `KernelHeaps.SecondPointer` is the witness: 116 is not a multiple of 16. All pointers are multiples of 4,
  and without frees pointer k is 16-byte aligned exactly when k is a multiple of 4
  (`HeapModel.SerialAligned`, `KernelHeaps.AllocateAll`).
- The kernel and DiscReader compute different offsets for shared objects (low byte above 1):
  `KernelLookup.SectorsDiffer` is an input, `KernelLookup.SameSector` the exact condition under which they agree.
- The kernel's lookup does not follow the free chain, so that a free run whose link equals an id passes for
  the object: `KernelLookup.LinkTaken` is an accepted map, `KernelLookup.LookupRefines` the exact condition.
- `CopyObject` copies a fragmented shared object from its first chunk (discreader/Objects.c:326):
  `DiscObjects.SharedCopy` is such an object, `DiscObjects.CopyAgrees` says exactly when copy and load agree.
- The kernel reads a directory as consecutive sectors from its first fragment (kernel/filecore.c:2537-2543).
  `KernelRead.Consecutive` says that this is the object exactly when it lies in one stretch of the disc.
- `MakeID` writes a link into the second half of a split only when another free run follows
  (discreader/Map.c:531). `DiscMaps.LastLink` says exactly when the link left there is zero, and
  `DiscMaps.ShortRest` is a map on which it is not. DiscReader's own scan is not misled: the lists still
  mirror the map.
- `AddEntry` extends a directory with `memcpy` (discreader/DirUtils.c:599): the stretches overlap exactly
  with more than 510 entries (`BigDirs.CopyOverlaps`), and `BigDirs.FullOf511` is such a directory. The
  precondition of `BigDirs.BigDir.AddEntry` excludes this case alone.
- `rcvbuf_push` drops what does not fit while `rcv_nxt` still advances (net/tcp.c:218):
  `TcpDelivery.DeliversWhenFitting` is the exact condition for in-order delivery, `TcpDelivery.Overflow` a
  run that breaks it.
- `tcp_rx` takes a FIN at any sequence number (net/tcp.c:466): `TcpDelivery.FinExact` is the exact
  condition under which the receiver stays on the stream, `TcpDelivery.EarlyFin` a run that loses a byte.
  `TcpDelivery.Delivered` holds past FINs that meet it.
- `tcp_rx` takes the data length from the frame length, so Ethernet padding is read as data
  (`TcpWire.ReadsBack`).
- The option loop of `dhcp_rx` can look at up to four bytes behind the frame (net/dhcp.c:334-362).
  `Dhcp.FrameDecides` says exactly when the frame alone decides, `Dhcp.OverRead` and
  `Dhcp.OneFrameTwoWays` show one frame that means two things.
- `AddEntry` takes names with spaces and control characters, of which only the part before them is read
  back. `BigDirs.SpaceUnsorts` shows such a name break the order and get lost; `BigDirs.InsertedSorted` and
  `BigDirs.MatchInserted` say exactly when the order is kept and the entry found.
- The kernel calls every entry with address 0x300 special, also a directory (kernel/filecore.c:2583):
  `KernelDir.LostDirectory` is an entry, `KernelDir.ReadsBack` the exact condition.
- It trusts the header for where an entry is (kernel/filecore.c:2554-2559): `KernelDir.ReadBehind` is a
  header that leads out of the buffer, `KernelDir.TableInBuffer` the exact condition.
- Many characters share a collation code, so `FindEntry` can take one name for another:
  `Collation.CmpEqual` says which names it cannot tell apart, `BigDirs.FindsOther` is a pair.

## Model

| member | source | states |
|---|---|---|
| `MapScan.FragmentsTile` | discreader/Map.c:188-270 | On any bits of an allocation area the scan ends and its fragments tile the area from the first bit to the end, without gap or overlap, each at least idlen + 1 bits long |
| `MapScan.RewriteId` | discreader/Map.c:611-621 | Writing a new id or link into the first bits of a fragment changes that fragment id and no other fragment of the zone, and takes no terminator away |
| `MapScan.SplitFrag` | discreader/Map.c:518-533 | Setting one terminator bit inside a fragment with room for another id behind it cuts exactly that fragment into two; the id of the second half is what the bits there hold, and a terminated zone stays terminated |
| `MapChain.Conservation` | discreader/Map.c:188-270 | In every zone the lengths of free runs, used fragments and the end marker add up to the allocation area |
| `MapChain.NthFree` | discreader/Map.c:227-235 | The k-th run of the free chain is one fragment of the zone, reached by exactly the links before it, and its own link leads to the rest of the chain |
| `ZoneClaim.ClaimRescan` | discreader/Map.c:502-590 | After the edit of one zone (split or whole block; first, middle or last run of its chain) a fresh scan finds the free chain without the claimed run or with its remainder, the new fragment in place, and every other fragment unchanged; a zone whose fragments are all terminated stays one |
| `DiscScan.FreeLocate` | discreader/Map.c:531-581 | Entry k of the disc-wide free list is a run of its zone, and its list neighbours are the neighbours in that zone chain exactly when they belong to the same zone |
| `DiscScan.ClaimWritesThrough` | discreader/Map.c:502-590 | Write-through for the whole disc: scanning the edited map gives exactly the free list with the block taken and the object store with the one new chunk; all other objects are unchanged |
| `DiscScan.TakeFreeBits` | discreader/Map.c:554-554 | Taking n bits from a free block lowers the total free length by exactly n |
| `MapObjects.HomeZoneTest` | discreader/Map.c:376-383 | The range test of AddID picks out exactly the home zone of the id |
| `MapObjects.InsertAllRotates` | discreader/Map.c:376-401 | Fragment order: inserting the fragments of one id in disc order gives the disc-order list rotated to its first home-zone fragment, and plain disc order when there is none |
| `MapObjects.BuildSelect` | discreader/Map.c:352-406 | The chunk list of an id depends on the fragments with that id alone, and the id is present exactly when it has a fragment |
| `MapObjects.BuildFresh` | discreader/Map.c:352-406 | One fragment of a new id anywhere in disc order adds that one object and changes no other |
| `MapObjects.BuildNonEmpty` | discreader/Map.c:352-406 | No object has an empty chunk list |
| `DiscMaps.DiscMap.GetBit` | discreader/Map.c:629-632 | The bit of a byte buffer is the bit of the zone as the scan sees it |
| `DiscMaps.DiscMap.SetBit` | discreader/Map.c:639-642 | One bit of one zone changes and nothing else on the map |
| `DiscMaps.DiscMap.SetMapBits` | discreader/Map.c:611-621 | A field of one zone is replaced, little-endian by bits, and nothing else on the map changes |
| `FreeLists.FreeList.Append` | discreader/Map.c:449-466 | The new node is the tail of a well-formed doubly linked list, which holds one entry more |
| `FreeLists.FreeList.Take` | discreader/Map.c:518-554 | Taking bits of a node shortens its entry; a node taken whole leaves a well-formed list, also at the head and at the tail, and no other entry changes |
| `FreeLists.FreeList.PrevStart` | discreader/Map.c:556-581 | The node before it belongs to the same zone exactly when the entry before it does |
| `FreeLists.FreeList.NextStart` | discreader/Map.c:531-533 | The same for the node behind it |
| `DiscMaps.DiscMap.AddFree` | discreader/Map.c:449-470 | The free block becomes the tail of the linked list; count and space grow by it |
| `DiscMaps.DiscMap.AddID` | discreader/Map.c:352-406 | The chunk is linked in at its place (home-zone chunks first), the object count stays the number of objects, used space grows for ids above 1 |
| `DiscMaps.DiscMap.FindUnusedID` | discreader/Map.c:477-494 | The lowest id of the zone, from 3 on, that no object has; 0 exactly when there is none |
| `DiscMaps.DiscMap.ReadID` | discreader/Map.c:197-202 | The id loop reads the little-endian field at the scan position |
| `DiscMaps.DiscMap.SkipBody` | discreader/Map.c:204-209 | The terminator loop stops behind the first set bit, or at the end of the zone |
| `DiscMaps.DiscMap.ReadFrag` | discreader/Map.c:188-225 | One fragment is read as the scan defines it, and the terminator test is exact |
| `DiscMaps.DiscMap.ScanZone` | discreader/Map.c:165-271 | Scanning a zone appends its free runs and its used fragments, in order, and accepts the zone exactly when every fragment ends in its terminator, the last of the disc excepted |
| `DiscMaps.DiscMap.ReadMapContents` | discreader/Map.c:157-274 | After the scan the lists mirror the map: free list, chunk lists, counts and both space totals; the answer is whether every zone is accepted |
| `DiscMaps.DiscMap.EditZone` | discreader/Map.c:528-584 | The bit and header writes of MakeID make the zone the edited zone of the write-through theorem and leave every other zone alone |
| `DiscMaps.DiscMap.MakeID` | discreader/Map.c:502-590 | The linked free list and the store still mirror the map bytes after the call; on success exactly one object with one chunk is added and exactly one free block shrinks or goes; on failure nothing changes; used plus free space is constant; a map that the scan accepts is accepted after the call, and nothing else is asked of the next call |
| `DiscMaps.AcceptedMeans` | discreader/Map.c:211-225 | ReadMapContents accepts every last zone, and any other zone exactly when all its fragments are terminated |
| `DiscMaps.AcceptedStays` | discreader/Map.c:502-590 | The edit of one zone leaves an accepted map accepted |
| `DiscMaps.AcceptedIsClear` | discreader/Map.c:211-225 | On an accepted map only a free block that reaches the end of the last zone can hold set bits behind its id |
| `DiscMaps.LastLink` | discreader/Map.c:528-556 | Splitting the last free run of a zone leaves a link of zero in the remainder exactly when the bits behind the cut were clear: MakeID writes no link there |
| `DiscMaps.ShortRest` | discreader/Map.c:214-218 | An accepted map on which it does not: the scan has added a short rest to the free run, and MakeID leaves a link to a bit where no fragment starts |
| `DiscObjects.MapAddrBytes` | discreader/Map.c:597-604 | The sector address of a chunk, times the sector size, is its byte address on the disc |
| `DiscObjects.StoreList` | discreader/Objects.c:139-172 | After the scan of any map the chunk list of an id is its disc-order list rotated to its home zone |
| `DiscObjects.DiscUsedOrdered` | discreader/Map.c:165-271 | The used fragments of a whole disc come in ascending, non-overlapping order |
| `DiscObjects.StoreApart` | discreader/Objects.c:139-211 | Disjointness from tiling: chunks of one object do not overlap, and no chunk overlaps a chunk of another object |
| `DiscObjects.SaveThenLoad` | discreader/Objects.c:139-211 | Reading back what was written over pairwise disjoint chunks returns the buffer |
| `DiscObjects.OtherObject` | discreader/Objects.c:179-211 | Writing an object does not change what is read from an object with disjoint chunks |
| `DiscObjects.SavedObject` | discreader/Objects.c:139-211 | For every map: save then load of an id returns the saved bytes, and every other object reads as before |
| `DiscObjects.DiscImage.LoadObject` | discreader/Objects.c:139-172 | Whole objects: the bytes of the chunks in list order, success exactly when they hold the size asked for; shared objects: the bytes at the sector address; no success for an unknown id |
| `DiscObjects.DiscImage.SaveObject` | discreader/Objects.c:179-211 | The disc becomes the old disc with the buffer laid over the chunks (or over the shared address); an unknown id changes nothing |
| `DiscObjects.DiscImage.CopyChunk` | discreader/Objects.c:326-350 | The buffered loop over one fragment appends exactly its bytes, whatever the buffer size |
| `DiscObjects.DiscImage.CopyObject` | discreader/Objects.c:257-360 | For every address and size: the bytes at the sector address when one chunk fits the buffer, otherwise those of the chunks, as far as they reach |
| `DiscObjects.CopyAgrees` | discreader/Objects.c:139-360 | CopyObject writes what LoadObject gives, whatever the disc holds, exactly when the object is not shared and not read at once beyond its chunk, or is shared and read at once, empty, or in one stretch from the beginning of its first chunk |
| `DiscObjects.SharedCopy` | discreader/Objects.c:326-350 | A shared object of two chunks: LoadObject reads its own sector, CopyObject the first sector of the first chunk |
| `DiscObjects.DiscImage.OneChunk` | discreader/Objects.c:299-308 | For an object in one chunk, reading straight from its sector address is reading the object |
| `KernelLookup.AdfsReadBits` | kernel/filecore.c:2134-2143 | The bit reader returns the little-endian field at a bit position |
| `KernelLookup.ScanSector` | kernel/filecore.c:2286-2316 | The one-sector walk finds the first fragment of the zone with the id, exactly when there is one, and returns its start |
| `KernelLookup.FcIdaToDataLba` | kernel/filecore.c:2229-2346 | The lookup succeeds and answers as the one-zone scan of the map says |
| `KernelLookup.FirstChunk` | kernel/filecore.c:2229-2346 | The first fragment with the id in its home zone is the head of the chunk list of the whole-disc scan, and exists exactly when that list has a home-zone chunk: both exactly when that fragment is no free run |
| `KernelLookup.LinksInside` | kernel/filecore.c:2229-2346 | When links stay inside the zone, no free run can be taken for an id that is at least the zone size |
| `KernelLookup.SameSector` | kernel/filecore.c:2327-2335 | Kernel and DiscReader agree on the sector of a chunk exactly when their offsets for the low byte agree modulo 2^32; they always do for low bytes 0 and 1 |
| `KernelLookup.SectorsDiffer` | kernel/filecore.c:2327-2335 | 512-byte sectors, 1 KB units, low byte 2: the kernel says sector 2 of the object, DiscReader sector 1 |
| `KernelLookup.LookupRefines` | kernel/filecore.c:2229-2346 | For every map and every address with id above 2 and low byte 0 or 1: the lookup succeeds exactly when the id has a fragment in its home zone, and returns the base plus the sector that SinAddr computes after the whole-disc scan, exactly when the first fragment of the home zone that carries the id is no free run |
| `KernelLookup.LinkTaken` | kernel/filecore.c:2286-2316 | An accepted map on which it is one: a free run with link 20 stands before object 20, and the kernel answers sector 0 instead of 80 |
| `KernelRead.GetChildEntry` | kernel/filecore.c:2486-2601 | From object address to entry: fails when the lookup does, otherwise tells what consecutive sectors from the first fragment say |
| `KernelRead.Consecutive` | kernel/filecore.c:2525-2553 | Consecutive sectors from the first chunk are the bytes of the object, whatever the disc holds, exactly when the object lies in one stretch, as it does when it fits the first chunk |
| `KernelRead.KernelTells` | kernel/filecore.c:2486-2601 | For every map and device: if the fragment found is no free run and the directory lies in one stretch, the kernel tells about it what the bytes say that LoadObject returns |
| `KernelRead.KernelLists` | kernel/filecore.c:2486-2601 | So when those bytes are a directory image, the kernel tells exactly its entries, one index after the other |
| `HeapModel.ClaimOk` | kernel/malloc.c:101-146 | Claiming keeps the heap tiled and merged, adds exactly the new block to the live ones and its size to the live bytes |
| `HeapModel.ReleaseOk` | kernel/malloc.c:148-201 | Releasing keeps the heap tiled and merged and takes exactly the freed block from the live ones |
| `HeapModel.NoFreeRun` | kernel/malloc.c:112-119 | Completeness: when no free block is large enough, every stretch of that many bytes meets a live block |
| `HeapModel.AllFree` | kernel/malloc.c:184-200 | A heap without live blocks is one free block of the whole size |
| `HeapModel.PayloadApart` | kernel/malloc.c:101-146 | The payload of a block overlaps no header, no tail canary and no other block |
| `HeapModel.FullHeap` | kernel/malloc.c:101-104 | Live bytes fill the heap exactly when no block is free |
| `HeapModel.SerialAligned` | kernel/malloc.c:107-110 | Without frees the payload of block i is 16-byte aligned exactly when i is a multiple of 4 |
| `KernelHeaps.NeedResidue` | kernel/malloc.c:107-110 | Every request takes 4 bytes more than a multiple of 16 |
| `KernelHeaps.AllocateAll` | kernel/malloc.c:101-146 | On a fresh heap, for all requests without a free: pointer k is 16-byte aligned exactly when k is a multiple of 4 |
| `KernelHeaps.SecondPointer` | kernel/malloc.c:101-146 | Two requests for one byte get 48 and 116, and 116 is 4 modulo 16 |
| `KernelHeaps.KernelHeap.FreeListInsert` | kernel/malloc.c:53-60 | The block becomes the head of the doubly linked free list; headers keep their sizes and states |
| `KernelHeaps.KernelHeap.FreeListRemove` | kernel/malloc.c:62-72 | The block is unlinked, the rest keeps its order, headers keep their sizes and states |
| `KernelHeaps.KernelHeap.CoalesceForward` | kernel/malloc.c:74-86 | The block swallows its free physical successor, which leaves the free list, and nothing else |
| `KernelHeaps.KernelHeap.CoalesceBackward` | kernel/malloc.c:189-198 | A free physical predecessor swallows the block |
| `KernelHeaps.KernelHeap.MallocInit` | kernel/malloc.c:88-99 | The heap is one free block of the whole size |
| `KernelHeaps.KernelHeap.FirstFit` | kernel/malloc.c:112-119 | The first block of the free list that is large enough; none exactly when no free block is |
| `KernelHeaps.KernelHeap.SplitBlock` | kernel/malloc.c:121-135 | The remainder becomes a free block with correct physical links, at the head of the free list |
| `KernelHeaps.KernelHeap.Kmalloc` | kernel/malloc.c:101-146 | Keeps the heap invariant (headers tile the heap, physical links, free list is exactly the free blocks, no two free neighbours, allocated bytes) and claims a block for the request with its canary behind the payload; pointers are multiples of 4; NULL only for size 0 or when no free block is large enough |
| `KernelHeaps.KernelHeap.Kfree` | kernel/malloc.c:148-201 | Keeps the heap invariant and releases exactly the block, merged with free neighbours; NULL and pointers whose header says free, also a header left inside a merged block, change nothing |
| `KernelHeaps.KernelHeap.FreeTwice` | kernel/malloc.c:167-171 | Two kfrees of one pointer in a row are one |
| `KernelHeaps.FreeMergedTwice` | kernel/malloc.c:167-171 | The second kfree of a block already merged into its predecessor leaves the heap one free block |
| `KernelHeaps.KernelHeap.FreeAll` | kernel/malloc.c:148-201 | Freeing all live blocks in any order restores one free block of the whole heap with no allocated bytes |
| `KernelHeaps.EmptyListMeansFull` | kernel/malloc.c:103-104 | The free list is empty exactly when live blocks fill the heap: the condition under which kmalloc starts the heap anew |
| `KernelHeaps.ReissueLiveMemory` | kernel/malloc.c:101-104 | The heap that kmalloc starts anew while full: two allocations that are both live get the same address |
| `SparceLog.RecordsAppend` | discreader/SparceFile.c:242-325 | Appending a block adds exactly one record to the log |
| `SparceLog.PatchData` | discreader/SparceFile.c:387-400 | Writing inside the data of a record changes no record header |
| `SparceLog.PatchAddr` | discreader/SparceFile.c:289-305 | Overwriting the address of a record marks that one record free |
| `SparceFiles.IndexUnique` | discreader/SparceFile.c:86-180 | A log has one index: the cache kept incrementally equals the one a fresh scan builds |
| `SparceFiles.Qsort` | discreader/SparceFile.c:130-131 | The result is sorted by address and a permutation of the input |
| `SparceFiles.Dedupe` | discreader/SparceFile.c:133-144 | Of entries for one address the last in the file stays; the result is the index of the log |
| `SparceFiles.SparceFile.BuildIndex` | discreader/SparceFile.c:86-144 | After scan, sort and dedupe the cache is the index of the log |
| `SparceFiles.SparceFile.Chop` | discreader/SparceFile.c:147-175 | The binary chop finds a block that holds the range exactly when a linear search does |
| `SparceFiles.SparceFile.Find` | discreader/SparceFile.c:80-180 | The position is that of the byte in a block holding the whole range; 0 only when no block does |
| `SparceFiles.SparceFile.InsertionPoint` | discreader/SparceFile.c:255-277 | The chop of AppendBlock finds the place of an address in the sorted cache, and whether it is there already |
| `SparceFiles.SparceFile.AppendBlock` | discreader/SparceFile.c:242-325 | The block is appended, the cache stays the index of the log, an older block of the same address is marked free, and no other byte changes |
| `SparceFiles.SparceFile.Write` | discreader/SparceFile.c:387-400 | The file as a partial memory: exactly the written addresses take the new bytes, all others keep theirs; the index and disjointness of blocks are kept, whether or not the file was indexed before |
| `SparceFiles.SparceFile.Read` | discreader/SparceFile.c:409-428 | A range inside one block returns the bytes last written there; any other range reads as zeros |
| `SparceFiles.OneByte` | discreader/SparceFile.c:409-428 | With disjoint blocks an address holds at most one byte |
| `Collation.Collate` | discreader/DirUtils.c:41-298 | Only the end of a string has a negative order code |
| `Collation.FilenameCmp` | discreader/DirUtils.c:1191-1214 | The comparison loop is the lexicographic order by code, a prefix first |
| `Collation.CmpAntisymmetric` | discreader/DirUtils.c:1191-1214 | Swapping the names negates the comparison |
| `Collation.CmpTransitive` | discreader/DirUtils.c:1191-1214 | The order is transitive, strictly when one step is strict |
| `Collation.CmpEqual` | discreader/DirUtils.c:1191-1214 | Names compare equal exactly when they are equally long and their characters have equal codes one by one |
| `BigDirLayout.TablesInjective` | discreader/DirUtils.c:571-666 | Entry table and name heap determine the list of entries |
| `BigDirParts.ImageUnique` | discreader/DirUtils.c:317-372 | The bytes of a directory determine its size, its frame and its entries |
| `BigDirParts.BytesImage` | discreader/DirUtils.c:571-666 | Every list of entries that fits has an image |
| `BigDirParts.ImageCut` | discreader/DirUtils.c:571-666 | A directory image is exactly the pieces of any cut of its list, laid out region by region |
| `BigDirParts.BumpEntries` | discreader/DirUtils.c:763-768 | Correcting the name pointers moves the names of those entries in the heap and changes no other byte |
| `BigDirSteps.AdjustParts` | discreader/DirUtils.c:744-771 | The heap adjustment moves the names behind the cut, corrects their pointers and the heap size, and leaves every other region alone |
| `BigDirSteps.Resize` | discreader/DirUtils.c:598-604 | Moving the end of a directory and setting its size gives an image of the new size with the same entries |
| `BigDirs.InsertedSorted` | discreader/DirUtils.c:607-649 | Insertion at the point found keeps the list sorted by collation exactly when no entry collates between the name as it is read back and the name: always for names without spaces and control characters |
| `BigDirs.SpaceUnsorts` | discreader/DirUtils.c:607-649 | It does not for "a z" behind "a#", and "a z" is not found afterwards |
| `BigDirs.RunSorted` | discreader/DirUtils.c:528-737 | Every run of insertions of names without spaces and control characters and of deletions keeps a sorted list sorted |
| `BigDirs.DeletedSorted` | discreader/DirUtils.c:698-720 | Deletion keeps the list sorted |
| `BigDirs.PointSeparates` | discreader/DirUtils.c:612-628 | All entries before the point collate before the name, the entry at the point does not |
| `BigDirs.MatchInserted` | discreader/DirUtils.c:951-985 | Looking up the name just inserted finds the entry just inserted exactly when the name has no space or control character; otherwise a later entry or none |
| `BigDirs.MatchFirst` | discreader/DirUtils.c:951-985 | The entry found is the first that collates like the name |
| `BigDirs.FindsOther` | discreader/DirUtils.c:951-985 | A lookup of $ finds an entry with the name # |
| `BigDirs.CopyOverlaps` | discreader/DirUtils.c:598-600 | The memcpy that moves the end of a directory by 2 KB overlaps itself exactly with more than 510 entries |
| `BigDirs.FullOf511` | discreader/DirUtils.c:586-605 | A directory of 511 entries that is full and may grow |
| `BigDirs.UndoInsert` | discreader/DirUtils.c:571-736 | Removing what a lookup finds after an insertion restores the same list exactly when the name has no space or control character |
| `BigDirs.ImageReads` | discreader/DirUtils.c:571-666 | Regions are disjoint, name pointers are contiguous, each name is where its pointer says, and backup i is the address of entry i |
| `BigDirs.BigDir.Load` | discreader/DirUtils.c:317-372 | The fields of a loaded directory describe its image |
| `BigDirs.BigDir.GetS` | discreader/DirUtils.c:1155-1172 | The string up to the first space or control character |
| `BigDirs.BigDir.SetS` | discreader/DirUtils.c:1179-1184 | The slot holds the string and then zeros; no other byte changes |
| `BigDirs.BigDir.FindPoint` | discreader/DirUtils.c:612-628 | The first entry that does not collate before the name, with the place of its name |
| `BigDirs.BigDir.FindEntry` | discreader/DirUtils.c:951-985 | The first entry that collates like the name, its offset and its disc address; 0 when there is none |
| `BigDirs.BigDir.AdjustNameHeap` | discreader/DirUtils.c:744-771 | Refused exactly when the heap would reach the backups; otherwise the bytes are adjusted as specified |
| `BigDirs.BigDir.InsertEntry` | discreader/DirUtils.c:607-665 | The directory image gains the entry at its collation position, in all three tables |
| `BigDirs.BigDir.Extend` | discreader/DirUtils.c:586-605 | The directory grows by 2 KB and holds the same entries |
| `BigDirs.BigDir.AddEntry` | discreader/DirUtils.c:528-669 | Insertion into the sorted list, growing by 2 KB when needed; refused, with nothing changed, exactly when the entry does not fit and the directory may not grow |
| `BigDirs.BigDir.Shrink` | discreader/DirUtils.c:722-735 | The directory gives back whole 2 KB units until at most 2 KB are spare, and holds the same entries |
| `BigDirs.BigDir.RemoveEntry` | discreader/DirUtils.c:677-737 | Deletion from the list, with shrinking; reads stay inside the buffer even for the last entry |
| `BigDirs.BigDir.AddFindRemove` | discreader/DirUtils.c:528-737 | Add, find and remove leave the same list behind exactly when the name has no space or control character, or nothing was added |
| `KernelDir.GetChildEntry` | kernel/filecore.c:2486-2601 | The reader tells what the directory bytes say, and fails when a sector is missing, the mark is missing or the index is too large |
| `KernelDir.ChildOfImage` | kernel/filecore.c:2555-2601 | On every image of at most 16 KB the kernel returns entry i for i below the count and fails exactly from the count on |
| `KernelDir.ReadsBack` | kernel/filecore.c:2555-2601 | For names of 7-bit printable characters: name, address, length, load and execution address come back as they were added; the directory flag does exactly when the address is not 0x300 or the flag is clear |
| `KernelDir.LostDirectory` | kernel/filecore.c:2583-2588 | A directory with address 0x300, as the editor writes it, is told as a special entry |
| `KernelDir.EntryInBuffer` | kernel/filecore.c:2554-2559 | An entry is read inside the 16 KB buffer exactly when header and entries up to it end there, modulo 2^32 |
| `KernelDir.TableInBuffer` | kernel/filecore.c:2552-2559 | All entries that a header counts are read inside the buffer exactly when the entry table ends there |
| `KernelDir.ReadBehind` | kernel/filecore.c:2552-2559 | A header with one entry and a name of 16 KB: the entry is read behind the buffer |
| `KernelDir.SameChild` | kernel/filecore.c:2530-2553 | Only the bytes of the directory itself matter |
| `Checksum.Fold` | net/ipv4.c:49-50 | Folding ends, fits 16 bits, keeps the sum modulo 0xFFFF and is zero only for zero |
| `Checksum.IpChecksum` | net/ipv4.c:42-52 | The one's complement of the folded sum, for even and odd lengths, on a 32-bit accumulator |
| `Checksum.DhcpChecksum` | net/dhcp.c:68-75 | The same value as ip_checksum on every byte string |
| `Checksum.TcpChecksum` | net/tcp.c:123-146 | The checksum of pseudo-header and segment together |
| `Checksum.InsertVerifies` | net/ipv4.c:172-182 | A message with its checksum filled in at an even place sums to zero |
| `Checksum.SumBound` | net/ipv4.c:42-48 | The bound on a sum that keeps the 32-bit accumulator from overflowing |
| `Checksum.Ipv4Output` | net/ipv4.c:156-192 | A frame exactly when it fits 1514 bytes; the header verifies, names both addresses, protocol and total length, and the payload follows unchanged |
| `Checksum.SegmentVerifies` | net/tcp.c:196-208 | A segment with its checksum filled in verifies together with its pseudo-header |
| `Dns.BuildQuery` | net/resolver_module.c:116-152 | Accepts exactly the names whose labels are 1 to 63 characters and whose query fits; then the buffer holds header and question |
| `Dns.ParseResponse` | net/resolver_module.c:160-228 | Ends on every packet and returns what the packet walk says |
| `Dns.SkipsWire` | net/resolver_module.c:184-189 | A name of good labels is skipped exactly, ended by a zero or by a compression pointer |
| `Dns.SkipsQuestion` | net/resolver_module.c:181-191 | The question skip lands exactly behind the question that the builder wrote |
| `Dns.FindsFirst` | net/resolver_module.c:193-226 | The walk returns the data of the first record of type A, class IN and length 4, for every list of records |
| `Dns.ResponseParsed` | net/resolver_module.c:116-228 | For every name the builder accepts: a response made of its question and answer records parses to the first address record |
| `Dhcp.Client.constructor` | net/dhcp.c:184-202 | The client starts idle, without an address |
| `Dhcp.Client.Start` | net/dhcp.c:204-226 | One DISCOVER is sent and counted as the first try |
| `Dhcp.Client.Tick` | net/dhcp.c:228-254 | Retransmission after 4 seconds in 32-bit time, and the static address after five tries |
| `Dhcp.Client.ParseOptions` | net/dhcp.c:326-363 | The option loop ends on every frame and the last option of a kind counts |
| `Dhcp.Client.Rx` | net/dhcp.c:256-419 | Only replies with our transaction, port and cookie count; an offer is requested, an acknowledgement binds, a refusal restarts |
| `Dhcp.BoundedRun` | net/dhcp.c:204-418 | In every run with N refusals at most 11 * (N + 1) DHCP frames are sent, the address is 0.0.0.0 until bound, and it is announced exactly once |
| `Dhcp.MustBind` | net/dhcp.c:228-254 | A run with N refusals sees at most 10 * (N + 1) expired timers, and one that sees as many is bound |
| `Dhcp.SixBind` | net/dhcp.c:228-254 | From every active state of a run, expired timers in a row are at most six, each counts as a try, and the last of them binds |
| `Dhcp.BoundReached` | net/dhcp.c:228-408 | For every N there is a run with N refusals that sees 10 * (N + 1) expired timers and is bound |
| `Dhcp.FrameDecides` | net/dhcp.c:326-363 | What the option loop makes of a frame depends on the bytes of the frame alone exactly when no option that is looked at reaches past it |
| `Dhcp.OverRead` | net/dhcp.c:334-338 | A frame that ends in the code and length of the message type: the byte behind the frame is taken for the type |
| `Dhcp.OneFrameTwoWays` | net/dhcp.c:256-419 | One reply of 300 bytes in two buffers: with one the client requests the address, with the other it does nothing |
| `Dhcp.HowBound` | net/dhcp.c:228-408 | The bound state is entered only by an acknowledgement of a request, or by the last retry |
| `Dhcp.BoundForGood` | net/dhcp.c:228-262 | Once bound the client changes and sends nothing |
| `Tcp.PushContents` | net/tcp.c:214-222 | A push appends as much of the payload as fits and leaves the rest of the block alone |
| `Tcp.PushExact` | net/tcp.c:214-222 | The ring takes the whole payload exactly when it fits |
| `Tcp.TakenContents` | net/tcp.c:341-355 | Taking bytes removes them from the front of the ring |
| `Tcp.GotAccounted` | net/tcp.c:393-526 | No arriving segment unbalances the send accounting |
| `Tcp.RunAccounted` | net/tcp.c:240-526 | In every run a used slot is in one of five phases, snd_nxt is the initial number plus 1, the bytes written and the FINs, SYNs carry the initial number, and nothing but ACKs follows a FIN |
| `Tcp.NothingAfterFin` | net/tcp.c:362-378 | At most one FIN is sent and no data follows it |
| `Tcp.DataInPlace` | net/tcp.c:323-335 | Every data segment carries the piece of the written stream that its sequence number says |
| `TcpDelivery.Delivered` | net/tcp.c:341-495 | For any loss, repetition and reordering of pieces of the peer stream and its FIN, as long as pieces fit and FINs are in place: what was read is a prefix of the stream, the ring holds what follows, and rcv_nxt counts both and the FIN, modulo 2^32 |
| `TcpDelivery.DeliversWhenFitting` | net/tcp.c:436-477 | An accepted payload keeps the receiver on the stream exactly when it fits the ring |
| `TcpDelivery.FinExact` | net/tcp.c:436-495 | A segment with a FIN is always taken for the end of the stream; rcv_nxt is then the number behind that end, and the receiver still on the stream, exactly when the segment number, or the end of its data, is the number expected |
| `TcpDelivery.EarlyFin` | net/tcp.c:436-495 | A run of three bytes and a FIN that comes first: the owner reads the last two bytes |
| `TcpDelivery.Overflow` | net/tcp.c:214-222 | A run of three pieces of 1460 bytes without a read: the byte behind them is read in the place of one that was dropped |
| `TcpStack.Conn.RcvbufPush` | net/tcp.c:214-222 | The loop stops at the first byte that finds the ring full |
| `TcpStack.Conn.Open` | net/tcp.c:280-298 | The slot is in SYN_SENT with one SYN sent and balanced books |
| `TcpStack.Conn.Tick` | net/tcp.c:240-254 | A SYN is repeated with the initial number and snd_nxt is restored |
| `TcpStack.Conn.Write` | net/tcp.c:323-335 | At most one segment of 1460 bytes, only when established |
| `TcpStack.Conn.Read` | net/tcp.c:341-355 | The oldest bytes of the ring, at most as many as asked for |
| `TcpStack.Conn.Close` | net/tcp.c:362-378 | A FIN on an open connection, otherwise the slot is free |
| `TcpStack.Conn.Rx` | net/tcp.c:424-525 | Each phase reacts as specified and the books stay balanced |
| `TcpStack.Stack.Connect` | net/tcp.c:273-305 | The first free slot is opened with the next port and initial number; no other slot changes; -1 exactly when all are in use |
| `TcpStack.Stack.Rx` | net/tcp.c:414-422 | The segment goes to the first used slot with its port and to no other |
| `TcpStack.Stack.Read` | net/tcp.c:341-355 | Reading by handle returns the front of the ring and changes no other slot |
| `TcpStack.Stack.State` | net/tcp.c:311-316 | A free slot reads as closed, and only five phases and closed are ever seen |
| `TcpWire.BuildSegment` | net/tcp.c:181-211 | The segment bytes hold the header fields, the data, and a checksum that verifies |
| `TcpWire.ReadsBack` | net/tcp.c:393-412 | tcp_rx reads back port, numbers, flags and data of a built segment; padding behind it is read as data |
| `Scheduler.BestIsFirstHighest` | kernel/sched.c:135-147 | The scan picks the first of the runnable tasks of the highest priority, and none exactly when no runnable task has a priority of at least 0 |
| `Scheduler.Cpu.Enqueue` | kernel/sched.c:83-99 | The task is the new end of a well-formed doubly linked queue and is ready |
| `Scheduler.Cpu.PickNext` | kernel/sched.c:135-147 | The list walk picks what the scan picks, or the idle task |
| `Scheduler.Cpu.FirstHighest` | kernel/sched.c:135-147 | No runnable task has a higher priority than the one chosen, and none of the same priority was enqueued earlier |
| `Scheduler.Cpu.Schedule` | kernel/sched.c:213-253 | Exactly one task is running, it is current, it is the choice of the scan, and no other task changes but the one that was running |
| `Scheduler.Cpu.YieldMany` | kernel/sched.c:256-258 | However often it yields, the same task runs, the first of the highest priority, and what can run does not change |
| `Scheduler.Cpu.Block` | kernel/sched.c:261-267 | The blocked task loses the CPU to the best runnable task |
| `Scheduler.Cpu.Wakeup` | kernel/sched.c:270-279 | Only a blocked task becomes ready; nothing else changes |

## Left out

- Input and output, allocation failures, printing, and the program exits behind them: discs, files and frames are byte sequences.
- Hardware access, interrupts, context switching, spin locks, the memory map, console and desktop code: they are not algorithms on data.
- Reading and writing the map as a whole and its check bytes (discreader/Map.c:62-150, 283-345).
- DiscMaps.DiscMap.ScanZone: the defect count and the defect space (discreader/Map.c:243-253) are not modelled.
- DiscMaps.DiscMap.ReadMapContents: the same two counters.
- Old-format directories with fixed 10-character names, `SortDirectory`, `CreateDir`, `UniqueName` and the directory check byte.
- Directories whose last name slot is not padded to a whole word; every directory that the editor itself writes is padded.
- KernelLookup.LookupRefines: ids above 2 with low byte 0 or 1; for other low bytes `KernelLookup.SameSector` compares the sectors. `zone_spare` is 32, where both readers mean the same bits.
- KernelLookup.FirstChunk: `KernelLookup.LinksInside` shows the condition met by ids of at least the zone size.
- KernelLookup.FcIdaToDataLba: reads the zone sector from the map bytes; a disc read error is not modelled.
- DiscObjects.DiscImage.LoadObject: discs whose allocation unit is smaller than a sector are excluded: there a map bit has no sector of its own.
- DiscObjects.DiscImage.SaveObject: the same discs are excluded.
- DiscObjects.DiscImage.CopyChunk: the same discs are excluded.
- DiscObjects.MapAddrBytes: the same discs are excluded.
- DiscObjects.DiscImage.OneChunk: the same discs are excluded.
- DiscObjects.DiscImage.CopyObject: the same discs are excluded; `file` is what is written, not the size the file was created with. The partition offset of the first sector is left out.
- KernelRead.KernelTells: ids above 2 with low byte 0 or 1, 512-byte sectors, and fragments that are no free run, as `KernelLookup.LookupRefines` says.
- KernelRead.KernelLists: the same.
- KernelHeaps.KernelHeap.Kmalloc: sizes whose rounded need wraps the machine word are excluded.
- KernelHeaps.KernelHeap.Kfree: pointers that never came from the heap, and headers overwritten by the data of a later block, are excluded; the canary check only prints and does not change the heap.
- `kcalloc`, `heap_stats` and the bump allocator of kernel/kernel_malloc.c.
- SparceFiles.Qsort: stands for the C library's qsort by any sort with the same result.
- SparceFiles.SparceFile.AppendBlock: the index, once built, must not be empty, as the binary chop of the source reads its first entry.
- SparceFiles.SparceFile.InsertionPoint: the same.
- SparceFiles.SparceFile.Find: ranges over the end of the 64-bit addresses are excluded.
- SparceFiles.SparceFile.Write: the range must lie inside one block or outside all, so that blocks stay disjoint; an empty write is excluded, and so is a file without blocks. Ranges and blocks that run over the end of the 64-bit addresses are excluded here and in `SparceFiles.SparceFile.Read`.
- SparceFiles.SparceFile.Read: ranges over the end of the 64-bit addresses are excluded.
- BigDirs.BigDir.Load: the size checks and the reading in two steps are not modelled.
- BigDirs.BigDir.Extend: directories with more than 510 entries are excluded: what the overlapping memcpy leaves is undefined in C.
- BigDirs.BigDir.AddFindRemove: the same directories, when they would have to be extended.
- BigDirs.BigDir.AddEntry: extending a directory with more than 510 entries is excluded, as in `BigDirs.BigDir.Extend`; load and execution address are parameters, because the source takes them from the clock; names are at most 255 characters, the size of the buffers they are read into.
- KernelDir.GetChildEntry: begins at the directory's sector address, which `KernelRead.GetChildEntry` looks up; the entry asked for must lie inside the directory, which the kernel does not check: behind it the buffer holds what was in memory.
- KernelRead.GetChildEntry: the same entries are excluded.
- Dhcp.Client.ParseOptions: the buffer must hold every byte that the option loop looks at; four bytes behind the frame are enough.
- Dhcp.Client.Rx: the same buffers.
- The bytes of DHCP frames and of the gratuitous ARP: the model records which frame is sent and with which addresses.
- TCP addresses, windows and address resolution: a segment counts as sent when it is handed to `send_segment`, also when no hardware address is known for it.
- `icmp_input`, `ipv4_input`, UDP, ARP and the lookup loop around the DNS packets.
- `dequeue_task`, which nothing calls, and scheduling across several CPUs.
- The Obey file interpreter, modules, signals, pipes, the virtual file system and device probing.
