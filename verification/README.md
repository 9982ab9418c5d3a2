# A Dafny model of sdb

Sdb is a string key/value store: an in-memory hash table over an immutable file in
D. J. Bernstein's cdb format with a four-byte record header. This project models its
hard cores and proves what they are for. `dafny verify dfyconfig.toml` checks
everything.

| modules | what they model |
|---|---|
| `CdbFormat`, `CdbLayout`, `CdbReader`, `CdbTables`, `CdbWriter`, `Buffers`, `Bytes` | the constant database on raw bytes: buffered writer, counting sort, linear-probing tables, 32-bit positions, lookup |
| `DiskWalk`, `Store`, `Journal`, `Recovery` | the walk over the file, memory over disk, the sync with its temporary file and rename, the journal, crashes around it |
| `SwissGroup`, `SwissProbe`, `SwissSpec`, `SwissIndex`, `SwissTable`, `SwissRehash`, `SwissMap` | the SwissTable: 64-bit word tricks on eight control bytes, triangular probing, tombstones, resize and in-place rehash |
| `HeapSpec`, `HeapBlocks`, `HeapSound`, `HeapSteps`, `HeapTight`, `HeapAlloc` | the boundary-tag allocator on raw 8-byte words |
| `TextFormat`, `TextRebuild`, `TextLoad` | the plain-text format: writer, in-place loader, rebuilt namespace tree |
| `HashTable`, `ListSort`, `Diff`, `DiffPatch`, `Arrays` | the chained hash table, sorting of doubly linked lists, namespace comparison and the patch it amounts to, comma arrays |
| `Glob`, `Js0n`, `JsonText`, `Base64` | the glob matcher, both JSON scanners and the texts they accept, base64 |
| `Options`, `Collections` | an option type; cardinalities of nested sets |

How things are represented:

- `sdb_hash` and the SwissTable hash are arbitrary functions. The salt of a SwissTable
  changes to an arbitrary value with every allocation, and the side of insertion is
  chosen arbitrarily.
- A file under construction is a sequence of bytes with a position. Writes may be
  short, and seeks, renames, opens and maps may fail; each is an arbitrary choice. A
  `System` counts the calls it fails, so that contracts can say when an operation succeeds.
- Allocator memory is a map from 8-aligned addresses to words (header, footer, free-list
  pointer or data). A read or write outside mapped memory, or of the wrong kind of word,
  would not verify. `mmap` grants any unused 8-aligned region or refuses.
- C strings are the bytes before their terminating zero.

Where the code is narrower than it looks, the contracts say so:

- `CdbReader.Cdb.FindNext`: a continued search finds nothing, because the slot count is
  cleared on entry (src/cdb.c:135).
- `DiskWalk.WalkExact`: the walk reads keys of 1 to 253 octets only, and it has no end
  marker: `DiskWalk.WalkCorrect` gives the test on the file that decides whether the walk ends with the
  records, and `DiskWalk.OverrunFile` the bytes of a database that fails it.
- `Store.ReadAfterWrite` gives the exact condition under which a set is seen by the next
  read; `Store.SecondSetForgets` shows the failing case.
- `Recovery.LoadCrashLoad`: sets made while the journal is loaded are logged again, so a
  crash during the load can bring an older value back or lose a key; the contract says
  exactly for which keys.
- `TextLoad.TextSave`: the results for entries and sub-namespaces are not looked at
  (src/text.c:171, 176, 193), so success may be reported although their writes were short.
- `HeapAlloc.SdbHeap.Run`: free neighbours are always merged only while no more than
  INT_MAX bytes have been mapped at once; `HeapTight.RefusedPair` shows the refused merge.
- `HeapAlloc.SdbHeap.Fini` releases nothing: it frees blocks that are free already.
- `Js0n.AgreeExactly`: the two scanners part on texts with an octet 0xEF before the last
  three octets; `Js0n.DifferOnEF` gives such texts. By section 3 of RFC 3629 that octet
  leads three octets, as the jump-table version has it.
- `JsonText.DelRejected`: a string may not hold octet 127, which section 7 of RFC 8259 permits.
- `Journal.LongLineSwallows`: a set whose line exceeds 255 octets takes the next one with it.
- `ListSort.SortAgain`: a list is not sorted again by the comparator it was sorted by
  last, even when elements were appended since (src/ls.c:140).
- `Arrays`: the array with a lone empty element is the empty array.

## Model

| member | source | states |
|---|---|---|
| `CdbReader.LookupCorrect` | src/cdb.c:127-189 | on every complete database file a fresh search answers with position and length of the data of the first record added under the key, with nothing for a key never added, and never with damage |
| `CdbReader.ProbeCorrect` | src/cdb.c:159-188 | from any step of the probe on, the loop reaches the first record for the key or a free slot, whatever other entries share its slots |
| `CdbReader.FirstComesFirst` | src/cdb.c:159-188 | along the probe path the first record for a key is met before any later record for it, and every earlier stop is another key |
| `CdbReader.ExamineRecord` | src/cdb.c:84-125 | reading a stored record and comparing it in chunks tells exactly whether it is under the key, and where its data is |
| `CdbReader.LookupFindsTable` | src/cdb.c:127-158 | the header entry of a hash, with the next entry or the file size as its end, leads to exactly the table of its bucket |
| `CdbReader.Cdb.constructor` | src/cdb.c:42-82 | a reader over the mapped file, whose size is taken as 32 bits, with no search in progress |
| `CdbReader.Cdb.FindStart` | src/cdb.c:38-40 | the next search starts afresh |
| `CdbReader.Cdb.Match` | src/cdb.c:109-125 | 1 exactly when the bytes at the position equal the key; otherwise the first chunk that is outside the file or differs decides between -1 and 0 |
| `CdbReader.Cdb.FindNext` | src/cdb.c:127-189 | a fresh call performs the specified search and leaves data position and length; a continued call finds nothing, because the slot count is reset on entry |
| `CdbReader.Cdb.Walk` | src/cdb.c:159-188 | the loop over slots with its wrapping address agrees with the recursive probe |
| `CdbWriter.CdbMake.constructor` | src/cdb_make.c:38-52 | an empty builder positioned behind the header, all counters zero |
| `CdbWriter.CdbMake.IncPos` | src/cdb_make.c:54-61 | the position advances, or nothing changes when 32 bits would wrap |
| `CdbWriter.CdbMake.AddEnd` | src/cdb_make.c:63-85 | the entry is noted in the block list and counted in its bucket; counters, list and position keep describing the records written; fails exactly on a refused allocation or a wrapping position |
| `CdbWriter.CdbMake.Add` | src/cdb_make.c:87-123 | success appends exactly this record to the stream, and comes exactly when the record fits its length bytes and 32-bit positions, no write was short and no allocation refused; oversized keys and values are refused with nothing written |
| `CdbWriter.BucketEnds` | src/cdb_make.c:160-163 | the prefix sums of the counters are the ends of the buckets |
| `CdbWriter.Distribute` | src/cdb_make.c:165-170 | the counting sort leaves every entry in the part of its bucket, each bucket in the order of the adds |
| `CdbTables.DistributeStep` | src/cdb_make.c:165-170 | placing one more entry from the back keeps every finished region and its order |
| `CdbWriter.BuildTable` | src/cdb_make.c:173-188 | the table built in scratch space holds every entry of the bucket on its probe path, paved by earlier ones |
| `CdbWriter.Insert` | src/cdb_make.c:181-188 | the inner loop finds the first free slot from the entry's home, and there is one |
| `CdbTables.InsertProbed` | src/cdb_make.c:181-188 | taking the first free slot keeps all earlier entries reachable |
| `CdbTables.FreeSlot` | src/cdb_make.c:173-187 | a table with fewer entries than slots has a free one |
| `CdbWriter.PackInto` | src/cdb_make.c:175-175 | four little-endian bytes in the header, the rest unchanged |
| `CdbWriter.CdbMake.PutTable` | src/cdb_make.c:189-198 | the slots of the finished table follow everything written before; fails exactly on a short write or a wrapping position |
| `CdbWriter.CdbMake.PutBucket` | src/cdb_make.c:172-199 | one more bucket has its table in the stream and its start in the header, of twice as many slots as entries |
| `CdbWriter.TallyFits` | src/cdb_make.c:146-156 | the allocation bound holds exactly when it does for the entries with every bucket's table |
| `CdbWriter.CdbMake.Finish` | src/cdb_make.c:140-214 | if it succeeds the file is a complete database of exactly the records added, for every sequence of adds; it succeeds exactly when no call fails, records and tables stay within 32-bit positions and the scratch space can be asked for |
| `CdbWriter.CdbMake.Seal` | src/cdb_make.c:201-209 | flushing and rewriting the first 1024 bytes turns the stream into that file |
| `CdbWriter.Complete` | src/cdb_make.c:140-214 | records, 256 tables and the header in front of them make a complete database |
| `CdbLayout.LayoutOf` | src/cdb_make.c:87-214 | octet by octet, in plain arithmetic: every complete database has its records from 1024 on with length octets least significant first, 256 little-endian table positions in front, and each record's hash and position in the first slot from hash / 256 modulo the table size that no earlier record of the same bucket took; all other slots are zero |
| `CdbLayout.StorableIs` | src/cdb_make.c:87-99 | which records the writer takes: keys up to 254 and data up to 16777213 octets |
| `Bytes.PackRoundTrip` | include/sdb/types.h:134-163 | unpacking four packed bytes gives the number back |
| `Buffers.Buffer.AllWrite` | src/buffer.inc.c:16-27 | the whole block reaches the file in order, or failure is reported; success exactly when the write was not short |
| `Buffers.Buffer.Flush` | src/buffer.inc.c:29-36 | the pending bytes are written and the buffer is empty; success exactly when no write was short |
| `Buffers.Buffer.PutAlign` | src/buffer.inc.c:38-59 | the stream is extended by exactly these bytes, through any number of flushes; success exactly when no write was short |
| `Buffers.Buffer.PutFlush` | src/buffer.inc.c:61-66 | if it succeeds, the pending bytes and directly behind them these are in the file, and all else in it is as before |
| `DiskWalk.BuildAndFind` | src/cdb_make.c:38-214 | a whole run: build from any records, map the file, look any key up; found exactly when added, with the data of its first record; the writer fails only as said for Build |
| `DiskWalk.Build` | src/cdb_make.c:38-214 | opening, adding every record and finishing yields a complete database of them, exactly when no system call or allocation fails and the records fit the format (`Buildable`) |
| `DiskWalk.WalkCorrect` | src/sdb.c:1138-1181 | the first results of the walk over a database file are its records in write order; the walk ends there if and only if `Stops` holds, a test of the first header entry and the four bytes found there |
| `DiskWalk.BucketZeroStops` | src/sdb.c:1138-1181 | a database with any key whose hash is a multiple of 256 passes that test |
| `DiskWalk.WalkExact` | src/sdb.c:1138-1181 | the walk over a database gives its records first if and only if all keys have 1 to 253 octets |
| `DiskWalk.DumpExact` | src/sdb.c:1146-1166 | one stored record: read back exactly then; otherwise the key octets are not passed over |
| `DiskWalk.WalkOverruns` | src/sdb.c:1146-1152 | every database of one record of hash 514 fails the test: its table slot reads as a further record |
| `DiskWalk.OverrunFile` | src/sdb.c:1146-1152 | the bytes of such a database: a complete database on which the walk runs on |
| `DiskWalk.EmptyFile` | src/cdb_make.c:140-214 | 256 packed 1024s are the complete database of no records |
| `Store.ReadAfterWrite` | src/sdb.c:694-781 | a set is seen by the next read if and only if it does not take the deleting branch (or writes the empty value), and no other key changes; refusals change nothing |
| `Store.SetCounts` | src/sdb.c:694-781 | a set is refused if and only if key or value is oversized, or it names a counter and the stored value has another; it returns a larger counter exactly when the value changes, keeps the expiry, and touches no other entry |
| `Store.LastCounter` | src/sdb.c:724-729 | the counter that decides is the one the last set of this key returned, whatever was set in between elsewhere |
| `Store.SwapOnce` | src/sdb.c:724-737 | of two sets naming the counter of the same earlier set, the first succeeds and the second is refused |
| `Store.SecondSetForgets` | src/sdb.c:751-754 | over an open file without the key, the second of two sets makes the key vanish |
| `Store.Sdb.Set` | src/sdb.c:694-781 | table and returned cas are those of the specified step, in every branch |
| `Store.Sdb.MergeOld` | src/sdb.c:935-961 | walking the old file writes the planned records: each of its keys once more, with the memory value where there is one, tombstones and keys that occur repeatedly included; it succeeds exactly when no call fails, every record that memory does not cover has a value and all records can be added |
| `Store.Sdb.MergeNew` | src/sdb.c:1044-1062 | afterwards each fresh memory entry, non-empty and without expiry, is in the new file once; it succeeds exactly when no call fails and all of them can be added |
| `Store.PlannedVisible` | src/sdb.c:1003-1024 | dropping the entries that went out and reading the new file shows every key as memory over the walked records did |
| `Store.Sdb.Sync` | src/sdb.c:1027-1078 | it succeeds exactly when no step fails, every walked record that memory does not cover has a value, and the planned records fit the format; success: the path holds a new complete database of the planned records, exactly the written entries have left memory (those with an expiry that the old file does not have stay), every key reads as memory over the walked old file did, and as before the sync when that walk ends with its records; failure: no memory entry is lost; in each case the path has shown only the whole old or the whole new database |
| `Store.Sdb.WriteNew` | src/sdb.c:1027-1066 | the part before the replacement: a complete database of the planned records, under the same exact condition |
| `Store.SyncKeepsVisible` | src/sdb.c:1027-1078 | when the walk of the old file ends with its records, that is what a reader saw before the sync |
| `Store.SyncShows` | src/sdb.c:1027-1078 | the written file under the remaining memory shows every key as before, and keys without a memory entry keep all their records |
| `Store.Sdb.Swap` | src/disk.c:72-104 | the rename happens entirely or not at all |
| `Store.DbPath.Replace` | src/disk.c:72-104 | a failed replacement changes nothing |
| `Journal.PrefixReplays` | src/journal.c:50-124 | any byte prefix of the log replays to the table after a prefix of the sets: exactly the completely logged ones |
| `Journal.PrefixCounts` | src/journal.c:89-103 | the returned count is the number of completely logged sets |
| `Journal.LongLineSwallows` | src/journal.c:107-124 | a set whose line exceeds the buffer loses its line break, and the next line is replayed as part of its value |
| `Journal.LogLineIs` | src/journal.c:112-112 | key, equals sign, value, line feed |
| `Journal.Load` | src/journal.c:50-106 | the scanning loop applies every complete line with an equals sign, in order, counts them, and logs each set that is not refused once more |
| `Journal.Recover` | src/journal.c:50-124 | loading whatever part of the journal arrived gives the state after a prefix of the sets, all of them when all arrived, and logs exactly that prefix again |
| `Journal.LogLineReplays` | src/journal.c:92-103 | a logged line splits into the key and value it was made of |
| `Journal.PrefixRelogs` | src/sdb.c:716-718 | from any byte prefix of the log, exactly the completely logged sets are logged again |
| `Recovery.LoadCrashLoad` | src/journal.c:50-124 | loading is interrupted with any number of bytes logged again, and the next start replays both from an empty table: a key reads as after the undisturbed load if and only if `Unharmed` holds of its values, of the repeated ones and of whether the file lacks it |
| `Recovery.ReplayShows` | src/sdb.c:694-781 | what any sequence of logged sets shows of a key, in closed form: the file's value if there are none, else the last value, but nothing where an open file lacks the key and its values end in an even number of non-empty ones |
| `Recovery.ReloadForgets` | src/sdb.c:716-718 | over the empty database file a key set once is gone when its line has been logged again |
| `Recovery.SyncThenCrash` | src/sdb.c:1027-1078 | a crash after the swap and before the journal is cleared: the table is the whole journal replayed over the new file from an empty one, and it shows every key as before the sync |
| `Recovery.ReplayAfterSync` | src/journal.c:50-124 | the same for one key, from what a sync promises, although sets act differently on keys that the new file holds |
| `Recovery.RunEnds` | src/sdb.c:694-781 | an entry that a run of sets leaves in memory shows the last value set; no entry is left only where the file lacks the key |
| `SwissMap.RawTable.constructor` | include/sdb/cwisstable.h:2360-2372 | an empty table for any initial capacity, rounded up to the next 2^k - 1, with the full growth budget |
| `SwissTable.BitsSized` | include/sdb/cwisstable.h:1097-1100 | that capacity is the least of its form that is not below the request |
| `SwissMap.RawTable.Insert` | include/sdb/cwisstable.h:2303-2357 | adds the entry exactly when the key is absent and changes nothing else in the stored map, whatever rehash it triggers |
| `SwissMap.RawTable.Find` | include/sdb/cwisstable.h:2542-2575 | answers as the stored map does |
| `SwissMap.RawTable.Erase` | include/sdb/cwisstable.h:2578-2599 | removes exactly this key from the stored map |
| `SwissMap.RawTable.EraseMetaOnly` | include/sdb/cwisstable.h:1980-2004 | the slot becomes empty or deleted, counters included, and every other key stays findable |
| `SwissMap.RawTable.RehashAndGrow` | include/sdb/cwisstable.h:2209-2264 | afterwards there is room to grow and the stored map is the same; the capacity stays when it is above 8 and at most 25/32 full, and doubles plus one otherwise |
| `SwissMap.RawTable.Resize` | include/sdb/cwisstable.h:2081-2118 | every entry moves to the new arrays, none is lost or duplicated |
| `SwissMap.RawTable.DropDeletesWithoutResize` | include/sdb/cwisstable.h:2120-2202 | the in-place rehash drops all tombstones and keeps the stored map |
| `SwissMap.RawTable.RehashOne` | include/sdb/cwisstable.h:2152-2197 | staying, moving or swapping keeps every other entry and leaves one tombstone fewer |
| `SwissMap.Refill` | include/sdb/cwisstable.h:2092-2108 | the new arrays hold exactly the entries of the old ones |
| `SwissMap.Reinsert` | include/sdb/cwisstable.h:2094-2107 | one entry goes into a free slot and nothing else changes |
| `SwissMap.NewArrays` | include/sdb/cwisstable.h:2018-2050 | fresh arrays: all bytes empty, one sentinel, the full growth budget |
| `SwissMap.SetCtrlAt` | include/sdb/cwisstable.h:1079-1095 | the byte and its mirror image in the cloned tail |
| `SwissMap.ConvertAll` | include/sdb/cwisstable.h:1053-1065 | every byte is converted and the cloned tail mirrors the first bytes again |
| `SwissMap.StoreConverted` | include/sdb/cwisstable.h:953-960 | the eight bytes are converted, their word is the one the source computes, and no other byte changes |
| `SwissMap.WasNeverFull` | include/sdb/cwisstable.h:1984-1997 | yes if and only if both windows have an empty byte and the distances of the nearest ones on either side leave no full window; no otherwise, and then one window has no empty byte or the distances say so |
| `SwissMap.CountedEmpty` | include/sdb/cwisstable.h:1112-1125 | the load limit leaves an empty byte in every table of seven slots or more, so every search ends |
| `SwissSpec.ReachAfterErase` | include/sdb/cwisstable.h:1980-2004 | marking an erased slot empty instead of deleted hides no other key |
| `SwissSpec.NeverFullWindow` | include/sdb/cwisstable.h:1984-1997 | no probe window over such a slot was ever without an empty byte |
| `SwissSpec.SetCtrlShaped` | include/sdb/cwisstable.h:1079-1095 | setting a byte keeps the sentinel and the mirrored tail |
| `SwissProbe.GroupInjective` | include/sdb/cwisstable.h:1204-1233 | two probes of one round never visit the same group |
| `SwissProbe.GroupSurjective` | include/sdb/cwisstable.h:1204-1233 | the triangular sequence visits every group of a power-of-two table within one round |
| `SwissTable.FindFirstNonFull` | include/sdb/cwisstable.h:1256-1283 | a slot with room that lies in the first uncrowded window on the key's path, for either side of insertion |
| `SwissTable.FindIndex` | include/sdb/cwisstable.h:2542-2562 | the slot of the key if it is stored, none otherwise; the search ends |
| `SwissTable.ScanGroup` | include/sdb/cwisstable.h:2550-2556 | the key's slot is among the lanes tried, or the key is not in this group |
| `SwissGroup.MatchLanes` | include/sdb/cwisstable.h:915-934 | every byte equal to the hash bits is reported, and nothing but full bytes is |
| `SwissGroup.EmptyLanes` | include/sdb/cwisstable.h:936-939 | the mask reports exactly the empty bytes |
| `SwissGroup.EmptyOrDeletedLanes` | include/sdb/cwisstable.h:941-945 | the mask reports exactly the empty and deleted bytes |
| `SwissGroup.ConvertLanes` | include/sdb/cwisstable.h:953-960 | each byte of the computed word encodes the converted state |
| `SwissGroup.ConvertWord` | include/sdb/cwisstable.h:953-960 | the computed word is exactly the word of the eight converted bytes |
| `SwissGroup.LowestIs` | include/sdb/cwisstable.h:621-633 | the trailing zero count is the lowest reported lane |
| `SwissGroup.HighestIs` | include/sdb/cwisstable.h:626-641 | the leading zero count gives the highest reported lane |
| `SwissGroup.NextLanes` | include/sdb/cwisstable.h:647-655 | dropping the lowest bit drops exactly the lowest lane |
| `SwissIndex.FindableInsert` | include/sdb/cwisstable.h:2303-2346 | filling a slot on its own path makes the new key findable and keeps all others findable |
| `SwissIndex.FindableErase` | include/sdb/cwisstable.h:1980-2004 | all other keys stay findable |
| `SwissRehash.RehashStart` | include/sdb/cwisstable.h:2142-2142 | after the conversion every entry waits in its old slot |
| `SwissRehash.RehashStay` | include/sdb/cwisstable.h:2161-2174 | an entry whose target lies in its own group may stay |
| `SwissRehash.RehashMove` | include/sdb/cwisstable.h:2175-2184 | an entry moved to an empty slot is placed |
| `SwissRehash.RehashSwap` | include/sdb/cwisstable.h:2185-2197 | after a swap one entry is placed and the other waits in turn |
| `SwissRehash.RehashDone` | include/sdb/cwisstable.h:2199-2202 | when nothing waits every key is findable and no tombstone is left |
| `HeapAlloc.SdbHeap.constructor` | src/heap.c:451-455 | the empty heap |
| `HeapAlloc.SdbHeap.Malloc` | src/heap.c:292-356 | null if and only if the size is 0 or out of bounds, or no free block fits and pages are beyond the limit or denied; otherwise an 8-aligned new live block with no more than a block's minimum to spare, all other live blocks and their contents unchanged; a free block that fits is always used, the first of the list; free neighbours stay merged |
| `HeapAlloc.SdbHeap.Free` | src/heap.c:424-449 | exactly this block stops being live and no other live block changes; null and free blocks are left alone; free neighbours are merged |
| `HeapAlloc.SdbHeap.Realloc` | src/heap.c:468-530 | the block keeps its old contents in place or at its new address and has the size asked for; it stays exactly when it or its free right neighbour has the room, and null is answered exactly when a new block would be refused; on failure nothing is lost; a request that fits changes nothing; size 0 frees |
| `HeapAlloc.SdbHeap.Run` | src/heap.c:292-530 | after any script of allocations, frees, reallocations and writes, what the client holds is what the answers told it (`Told`, a fold over script and answers); its pointers are exactly the live blocks, each once, every block has at least the size last asked for and holds every word written there; unless the system denied pages, every obtainable block was given; and unless more than INT_MAX bytes were ever mapped at once, no two linked neighbours are both free |
| `HeapAlloc.SdbHeap.Serve` | src/heap.c:292-530 | one request keeps that for every block, the client's books change exactly as the request and its answer say (`Tell`), and it is refused exactly when it must be |
| `HeapAlloc.SdbHeap.ServeResize` | src/heap.c:468-530 | the same for a reallocation, whether it grows in place, moves, fails or frees: the words written stay noted and stored, also those beyond a smaller size |
| `HeapAlloc.SdbHeap.Fini` | src/heap.c:457-466 | frees only blocks that are free already, so memory and blocks stay as they are |
| `HeapAlloc.SdbHeap.RemoveFromFreeList` | src/heap.c:199-224 | exactly this block leaves the doubly linked list, from either end or the middle |
| `HeapAlloc.SdbHeap.AppendToFreeList` | src/heap.c:226-245 | exactly this block joins the list in front |
| `HeapAlloc.SdbHeap.FindFreeBlock` | src/heap.c:249-259 | the first listed block that is large enough; null if and only if none is |
| `HeapAlloc.SdbHeap.Split` | src/heap.c:263-290 | two tagged neighbours where the rest is large enough, the right one, with the rest of the size, on the free list; the payload of the left one stays |
| `HeapAlloc.SdbHeap.TakeFree` | src/heap.c:302-311 | a free block becomes live and is cut to size |
| `HeapAlloc.SdbHeap.TakeRegion` | src/heap.c:314-355 | null exactly when more than the page limit is needed or the system denies the pages, with nothing changed; otherwise a new region of as many pages as needed and no fewer than the last doubling asked for, cut to size |
| `HeapAlloc.SdbHeap.MapBlock` | src/heap.c:327-350 | a region that starts where the last one ended becomes a linked neighbour |
| `HeapAlloc.SdbHeap.Coalesce` | src/heap.c:362-399 | the block becomes one with each free neighbour that leaves the sum within INT_MAX, the left one first; no other block changes its extent and no live block its contents; if all fits, no two linked neighbours are both free afterwards |
| `HeapAlloc.SdbHeap.CoalescePrev` | src/heap.c:365-378 | merged into the left neighbour exactly when that one is free and the sum is within bounds, footer still to be written; otherwise nothing changes |
| `HeapAlloc.SdbHeap.CoalesceNext` | src/heap.c:380-395 | the right neighbour is taken in exactly when it is free and the sum is within bounds; otherwise nothing changes |
| `HeapAlloc.SdbHeap.Unmap` | src/heap.c:401-422 | the block leaves the heap and exactly its words leave memory, its neighbours forget it, all other extents stay, and the tail hint stays the end of a block or null |
| `HeapAlloc.SdbHeap.TrimPages` | src/heap.c:438-448 | a free block at a page boundary gives back exactly its whole pages, unless the rest could not be a block; the rest stays free; no live block changes |
| `HeapAlloc.SdbHeap.GrowInPlace` | src/heap.c:494-517 | the block grows over its free right neighbour and keeps its payload |
| `HeapAlloc.SdbHeap.TakeIn` | src/heap.c:494-510 | the used block is as large as both, keeps its payload, and is not followed by a free block |
| `HeapAlloc.SdbHeap.MoveBlock` | src/heap.c:519-529 | the contents are at the new address and the old block is gone |
| `HeapAlloc.SdbHeap.CopyWords` | src/heap.c:525-525 | the words of the source are at the destination and nothing else changed |
| `HeapSteps.BlockSize` | src/heap.c:170-183 | the least multiple of 8 with room for request and tags, at least 32; refused exactly for 0 and past the 32-bit limit |
| `HeapSteps.BlockSizeIs` | src/heap.c:170-183 | the same in numbers |
| `HeapSteps.GrowPages` | src/heap.c:192-197 | doubles or reaches the page limit: never fewer pages than needed below that limit, and never more than it |
| `HeapSteps.TilesOnce` | src/heap.c:71-104 | every mapped word lies in exactly one block |
| `HeapSteps.Disjoint` | src/heap.c:71-104 | two blocks are disjoint, 8-aligned and fully mapped |
| `HeapTight.CoalescedBoth` | src/heap.c:362-399 | the two halves of `coalesce` together: which neighbours are merged, and the size that results |
| `HeapTight.PairFits` | src/heap.c:358-360 | two linked neighbours never span more than what is mapped, so a merge is refused only when more than INT_MAX bytes are |
| `HeapTight.RefusedPair` | src/heap.c:358-378 | when the merge with a free left neighbour would pass that bound, both stay and are free neighbours |
| `HeapTight.QuietLeft` | src/heap.c:365-378 | after a merge to the left no free block precedes the result |
| `HeapTight.QuietRight` | src/heap.c:380-395 | after a merge to the right no free block follows the result |
| `HeapTight.QuietSplit` | src/heap.c:263-290 | cutting a block that no free one follows makes no new pair of free neighbours, the two parts aside |
| `HeapSound.SoundCut` | src/heap.c:263-290 | the tags and lists after a cut, for every heap |
| `HeapSound.SoundFuse` | src/heap.c:365-395 | the same after a merge |
| `HeapSound.SoundUnmap` | src/heap.c:401-422 | the same after a region is given back, tail hint included |
| `HeapSound.SoundMap` | src/heap.c:327-338 | the same after a region is mapped at any unused place |
| `HeapSound.SoundJoin` | src/heap.c:339-350 | the same after two regions become neighbours |
| `HeapSound.SoundRemove` | src/heap.c:199-224 | the same after a list removal |
| `HeapSound.SoundPush` | src/heap.c:226-245 | the same after a list insertion |
| `Glob.GlobMatch` | src/match.c:36-59 | true if and only if the recursive definition of matching the whole string holds, in both case modes; the loop ends |
| `Glob.ConcatMatches` | src/match.c:32-35 | a pattern in two parts matches exactly the texts that can be cut in two to match them |
| `Glob.LiteralMatches` | src/match.c:32-35 | a pattern without a star matches exactly the texts that agree with it throughout |
| `Glob.StarMatches` | src/match.c:32-35 | a star matches every text |
| `Glob.SameLetter` | src/match.c:25-30 | ignoring case equates a letter with its other case and nothing else |
| `Glob.ScanForget` | src/match.c:42-44 | at a further star, and at the end of the text, the earlier star may be forgotten |
| `Glob.ScanBack` | src/match.c:48-53 | a mismatch rules out the current place of the last star, and everything when there is no star |
| `Js0n.JumpScan` | src/json/js0n.c:32-158 | result and offsets are those of the reference scan with four-octet sequences from 0xF0 on |
| `Js0n.SwitchScan` | src/json/js0n.c:172-295 | result and offsets are those of the reference scan with four-octet sequences from 0xEF on |
| `Js0n.SameWithoutEF` | src/json/js0n.c:32-295 | on every input without octet 0xEF both versions give the same result and offsets |
| `Js0n.AgreeExactly` | src/json/js0n.c:32-295 | if no 0xEF stands before the last three octets, both versions give the same result and offsets; for every text on which either returns anything other than 1, they do so only then |
| `Js0n.DifferOnEF` | src/json/js0n.c:240-252 | wherever a string can be in progress, the switch version rejects a valid three-octet character led by 0xEF before the closing quote |
| `Js0n.OffsetsDelimit` | src/json/js0n.c:8-9 | no more offsets than octets; a result of 0 or less means complete (start, length) pairs, ordered, disjoint and inside the text, each delimiting a string, a container or a bare word |
| `Js0n.StepSound` | src/json/js0n.c:98-158 | one octet keeps that for the part read so far |
| `JsonText.Accepted` | src/json/js0n.c:32-158 | every JSON array and object, with blanks anywhere between tokens, is accepted with code 0 and exactly the spans of the keys and values of the outermost container, in order |
| `JsonText.AcceptedSwitch` | src/json/js0n.c:172-295 | the switch version gives the same if and only if no 0xEF stands before the last three octets |
| `JsonText.SpansAre` | src/json/js0n.c:8-9 | each reported pair delimits the inside of its string or the whole of its value |
| `JsonText.ScanValue` | src/json/js0n.c:98-158 | scanning a value at any depth leaves the scanner as it was, but for one span at depth 1 |
| `JsonText.BadOctets` | src/json/js0n.c:36-88 | which octets are rejected in each state |
| `JsonText.DelRejected` | src/json/js0n.c:66-67 | DEL in a string is rejected, which JSON permits |
| `JsonText.NullAccepted` | src/json/js0n.c:48-48 | an array of one null, in both versions |
| `TextLoad.SaveAndLoad` | src/text.c:159-419 | saving any tree and loading the text into an empty memory database gives the same tree, unless a write was short |
| `TextRebuild.SaveThenLoad` | src/text.c:159-419 | the same, on the specification |
| `TextRebuild.Rebuild` | src/text.c:248-287 | the lines of a dump, applied in order, rebuild the tree |
| `TextRebuild.Focus` | src/ns.c:234-259 | lines that start by opening a namespace act on that namespace alone |
| `TextRebuild.LastLineWins` | src/text.c:248-287 | of several lines for one key the last counts, in the place of the first |
| `TextRebuild.PutReplaces` | src/sdb.c:694-781 | a further set of a key replaces its entry and moves no other |
| `TextFormat.DumpDecodes` | src/text.c:159-201 | reading a dump gives exactly the lines it was written for |
| `TextFormat.SmallDump` | src/text.c:46-59 | a dump of two namespaces, octet by octet |
| `TextFormat.EscapeRead` | src/text.c:80-110 | unescaping undoes escaping in path, key and value tokens |
| `TextFormat.EscapeIs` | src/text.c:80-110 | which characters are escaped, and how |
| `TextFormat.UnescapeIs` | src/text.c:289-307 | what an escaped character stands for, and where lines end |
| `TextFormat.EntryRead` | src/text.c:134-157 | an entry line reads back as its key and value, leading slashes and equals signs included |
| `TextFormat.EntryLines` | src/text.c:20-46 | entry lines of the documented kinds, octet by octet |
| `TextFormat.PathLineRead` | src/text.c:112-132 | a path line reads back as its names |
| `TextLoad.LoadBuf` | src/text.c:402-419 | the loader, rewriting the buffer it reads, understands every line of the original text |
| `TextLoad.LoadCtx.constructor` | src/text.c:382-400 | a loader at the start of the buffer, on the root namespace |
| `TextLoad.LoadCtx.ProcessChar` | src/text.c:304-350 | one step of the lexer, with the unread input untouched |
| `TextLoad.LoadCtx.FeedChar` | src/text.c:327-349 | the token in progress is kept together in place; nothing after the position changes |
| `TextLoad.LoadCtx.ProcessLine` | src/text.c:248-287 | the terminated tokens are read from the buffer as they were written and applied to the database |
| `TextLoad.LoadCtx.FinalLine` | src/text.c:352-376 | a last line without line break is understood too |
| `TextLoad.LoadCtx.ReadNames` | src/text.c:259-270 | the path tokens, empty ones skipped |
| `TextLoad.EscapeLoop` | src/text.c:80-110 | writing runs between flush points is escaping character by character; success exactly when no write was short |
| `TextLoad.WritePath` | src/text.c:112-132 | the text of the path; success exactly when no write was short |
| `TextLoad.WriteEntry` | src/text.c:134-157 | the text of the entry; success exactly when no write was short |
| `TextLoad.TextSave` | src/text.c:159-201 | without a short write the text of the whole tree is appended and success reported; failure means a short write; what was in the file before stays in any case |
| `HashTable.Ht.constructor` | src/ht.inc.c:102-122 | the empty table |
| `HashTable.Ht.Find` | src/ht.inc.c:296-329 | answers as the stored map does |
| `HashTable.Ht.PutKv` | src/ht.inc.c:185-211 | a new key is added and counted, a stored one is overwritten or left alone |
| `HashTable.Ht.InsertUpdate` | src/ht.inc.c:223-235 | insert and update act on the stored map as named, through any growth |
| `HashTable.Ht.Grow` | src/ht.inc.c:147-177 | rehashing keeps the stored map and leaves more buckets than entries |
| `HashTable.Ht.Fill` | src/ht.inc.c:160-168 | every entry is inserted and none of the insertions makes the new table grow |
| `HashTable.Ht.Delete` | src/ht.inc.c:332-349 | removes exactly this key |
| `HashTable.Ht.UpdateKey` | src/ht.inc.c:250-291 | the value moves to the new key, exactly when the old key is stored and the new one is not |
| `HashTable.Ht.Foreach` | src/ht.inc.c:351-365 | with a callback that may delete the current element and may end the walk: no element is visited twice, exactly the visited ones it deletes go, all are visited unless it ended the walk, and it asked to go on at all but the last visited |
| `HashTable.SizesGrow` | src/ht.inc.c:49-60 | the next size is always larger, along the prime list and past its end |
| `HashTable.Decided` | src/ht.inc.c:296-321 | one bucket decides whether a key is stored |
| `ListSort.SdbList.Sort` | src/ls.c:139-151 | a sorted permutation in a well-formed doubly linked list with right head, tail and back pointers; refused, with the list as it was, exactly when this comparator was used last |
| `ListSort.SdbList.Append` | src/ls.c:220-241 | the element is the last one, the list is marked unsorted, and the mark of the last comparator stays |
| `ListSort.SortAgain` | src/ls.c:139-151 | sorting, appending and sorting again by the same comparator leaves the list in order if and only if no element is above the appended one |
| `ListSort.StaleList` | src/ls.c:139-151 | the failing case: 1 sorted, 0 appended, sorted again |
| `ListSort.SdbList.MergeSortAll` | src/ls.c:121-137 | the same for long lists, with the tail found again |
| `ListSort.MergeSort` | src/ls.c:107-119 | the nodes relinked or their data exchanged: sorted, the same values, back pointers right |
| `ListSort.Merge` | src/ls.c:50-83 | relinking two lists gives their stable merge, linked both ways |
| `ListSort.SplitList` | src/ls.c:85-105 | lists of up to one node are returned; of two or more, lists of at most 48 nodes stay whole and longer ones become two well-formed halves |
| `ListSort.Middle` | src/ls.c:85-98 | the slow pointer stops in the middle |
| `ListSort.ExchangeSort` | src/ls.c:33-44 | sorted values in the same nodes |
| `ListSort.MergedSorted` | src/ls.c:50-83 | the merge of sorted sequences is sorted |
| `ListSort.MergedMultiset` | src/ls.c:50-83 | the merge holds the values of both |
| `Diff.SdbDiff` | src/diff.c:157-171 | true if and only if both databases contain the same entries and namespaces; the reports are exactly the differences |
| `Diff.ChangesAre` | src/diff.c:85-155 | a removal is reported for precisely what only the first contains, an addition for precisely what only the second contains |
| `DiffPatch.PatchGives` | include/sdb/sdb.h:220-222 | applying the reports to the first database one by one in reported order gives a database with exactly the contents of the second |
| `DiffPatch.PatchedTree` | src/diff.c:115-155 | that database: the patched entries, the shared namespaces patched in place, the others removed or appended |
| `DiffPatch.Built` | src/diff.c:80-97 | the reports of an added namespace, applied to an empty one, build it exactly, order included |
| `DiffPatch.EntriesPatched` | src/diff.c:98-113 | the entry reports turn one set of entries into the other, a changed value being removed and then added |
| `DiffPatch.PatchBelow` | src/diff.c:115-155 | reports from inside a namespace change that namespace alone, as they would change it by itself, and nothing once it is gone |
| `Diff.SilentIffEqual` | include/sdb/sdb.h:220-222 | no report if and only if equal |
| `Diff.Compare` | src/diff.c:115-155 | the recursion with and without callback finds the specified reports, or whether there are any |
| `Diff.CompareEntries` | src/diff.c:98-113 | the same for the entries of one namespace |
| `Arrays.ArrayGet` | src/array.c:83-129 | the element at the index, from the end when negative, or none |
| `Arrays.ArrayInsert` | src/array.c:138-201 | insertion into the sequence of elements, filling a gap with empty ones |
| `Arrays.ArraySet` | src/array.c:344-397 | replacement in the sequence of elements, appending and filling past the end |
| `Arrays.ArrayDelete` | src/array.c:459-491 | removal from the sequence of elements; refused exactly when there is no such element |
| `Arrays.ArrayAddSorted` | src/array.c:228-287 | the multiset union, and sorted if the array was |
| `Arrays.AddSorted` | src/array.c:247-285 | the copied chunks and separators are the text of the merge |
| `Arrays.Aindexof` | src/array.c:11-24 | the offset at which the element begins, none past the end |
| `Arrays.Alen` | src/util.c:236-250 | the number of elements |
| `Arrays.Astrcmp` | src/array.c:26-45 | compares the first elements of two strings, characters taken as signed |
| `Arrays.AcmpOrders` | src/array.c:26-45 | this comparison is a total order |
| `Arrays.OrderIs` | src/array.c:26-45 | octets from 128 on are negative, and a prefix comes first |
| `Arrays.SplitConcat` | src/array.c:11-24 | splitting is cutting at the separators |
| `Arrays.CommaSeparates` | src/array.c:11-24 | elements are separated by commas |
| `Base64.RoundTrip` | src/base64.c:9-58 | decoding the encoding of any octet string gives exactly that string |
| `Base64.GroupRoundTrip` | src/base64.c:9-37 | the same for one group of one to three octets, padding included |
| `Base64.GroupDigits` | src/base64.c:9-17 | a group is the base-64 digits of its 24-bit number in the letters of the alphabet, padded with equals signs |
| `Base64.EncodeRaw` | src/base64.c:39-46 | the loop over groups produces the specified text |
| `Base64.DecodeRaw` | src/base64.c:48-58 | the loop over groups produces the specified octets, up to the first bad group |
| `Base64.EncodedLength` | src/base64.c:39-46 | four characters for every three octets, the last group padded |
| `Base64.TablesAgree` | src/base64.c:6-7 | the decoding table inverts the alphabet of section 4 of RFC 4648 |
| `Base64.AlphabetIs` | src/base64.c:6-6 | the characters are the alphabet, in its order |
| `Base64.LookedIs` | src/base64.c:7-7 | exactly the characters of the alphabet have a value |

## Left out

- memcache/, the command line, code generation, the language bindings, gperf back ends and hooks.
- src/query.c and src/json.c: string dispatch and editing built on the parts above.
- System calls of src/file.c and src/lock.c; only rename, truncation, write and seek appear, as steps that may fail.
- The sniffing of text files when a database is opened (src/text.c:458-492): a cdb file is opened as cdb.
- Expiry clocks: an entry keeps its expiry time and a sync skips it, but time never passes.
- Compare-and-swap counters never wrap at 32 bits.
- Reading a database that could not be mapped (src/cdb.c:94-106): the reader always works on the mapped file.
- Allocation failure inside the hash tables, lists and text loader. Growth of the chained table always succeeds, and its sizes stay below 32 bits.
- SSE2 groups, the concrete hash functions and the iterators of the SwissTable.
- Cyclic or shared namespaces, namespace locks and the path-length limit for namespaces of databases with a directory: trees only.
- The non-glob modes of `sdb_match` (src/match.c:61-124).
- The numeric array functions, `sdb_array_sort`, and the array functions built from the ones modelled.
- `sdb_diff_format`: the printed form of a difference.
- Store.Sdb.MergeNew: memory entries go out in an arbitrary order, not in the order of the buckets; the table is a map there, as HashTable shows it to be.
- Store.Sdb.Sync: the name of the temporary file is not modelled; the clearing of the journal after the swap is not a step of it, and what a crash before that step leaves is Recovery.SyncThenCrash.
- Journal.Load: what is logged again reaches the file up to the crash; a failing write that loses a line in the middle is not modelled.
- HashTable.Ht.Grow: the larger table can always be allocated, so the overloaded table that a failed allocation leaves does not occur.
- HashTable.Ht.PutKv: the spare capacity of a bucket's array is not modelled.
- TextLoad.TextSave: entries and namespaces come in the given order, sorted or not.
- TextLoad.SaveAndLoad: entries are kept in the order of insertion, which the hash table does not promise.
- Diff.Compare: the path list is not carried along; reports from a sub-namespace get its name in front when it returns.
- Arrays.ArrayInsert: works on the stored string; the size limit of `sdb_set` is not modelled.
- Base64.EncodeRaw: lengths stay below the 32-bit limit of the source's counters.
- HeapAlloc.SdbHeap.Mmap: addresses are unbounded integers.
- Js0n.AgreeExactly: for texts on which both versions return 1, the condition is sufficient only; the offsets written until then may agree without it.
- Js0n.JumpScan: texts stay below 4 GB, so that offsets fit their 32-bit type.
