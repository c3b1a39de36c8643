# A verified model of the GDBM engine

GDBM keeps a map from byte strings to byte strings in one file, by extendible hashing: a directory
indexed by the leading bits of a 31-bit hash, buckets that are small open-addressed tables, free-space
tables in every bucket and in the header, a stack of spilled free tables on disk, and a write-back
cache of buckets. This project models that engine in Dafny, with the branches, constants and error
cases of the C code, and proves what it is for.

The main results:

* **Every run is a finite map's run** (`Runs.Session`, `Runs.Run`). From a new file on, any sequence
  of stores, deletions and fetches, with any block size, header kind, cache size and free-space
  policy, gets exactly a finite map's answers. The one way a store fails is also exact: the key is new
  and as many stored keys as a bucket holds agree with it on the first 27 hash bits; from then on every
  operation reports an error. With a cache of fixed size this holds without a condition. The cache that
  `gdbm_open` sets up resizes itself, and there it holds for every run in which each split begins with
  at least two directory entries (or cache places) more than there are buckets: `Runs.Smooth`. That
  condition is a computable predicate on the operations, because the shape of the directory depends on
  the keys alone (module `Growth`); a run that ends with at least two buckets fewer than the first
  directory has entries always meets it (`Runs.FewBucketsSmooth`). Fetches, deletions, replacements and
  stores that do not split need no condition at all. What happens otherwise is described under
  "Findings".
* **No byte serves two purposes and none gets lost** (`Safety.NoOverlap`, `Safety.EveryByte`), in every
  state such a run reaches.
* **A crash at any system call is survived** (`Snapshot.CrashAnywhere`, `Restore.OpenLatest`): whatever
  part of the pending changes reached the disk, recovery finds the file, cell for cell, as the last
  snapshot or the one under way found it, across wrap-around of the synchronisation count; opened, it
  has the contents of that moment, under the condition of the next item. Joined with the runs
  (`CrashRuns.Transactions`, `CrashRuns.AfterCrash`): if groups of operations are each followed by
  `gdbm_sync`, what is opened after a crash is the map the specification gives after the last group
  synchronised, or the one being synchronised. Every verdict of the recovery is exact
  (`Snapshot.Verdicts`), and so is the moment at which the old clone gives way to the new one.
* **The file alone is enough** (`Reopen.Open`), with an exact condition, also for a file cloned between
  the header's write and the file's extension.
* **Dump and load, recovery, and walking a database** give back exactly its contents
  (`Transfer.CopyByDump`, `Recovery.RunRecovery`, `Sequential.VisitAll`). Dump and load works exactly if
  the new buckets can hold the keys that agree on 27 hash bits, as buckets no smaller than the old ones
  can. Dumps of earlier versions, which have no mark for empty data, are read as well. A copy with a
  cache of fixed size needs no further condition. A copy with the cache that
  `gdbm_open` sets up is complete if every split of it begins with room (`Filling.FillsEasily`, decided
  by the records), and always if the database has at least two buckets fewer than the new directory or
  cache has entries: a new database that is filled never gets more buckets than the one its records
  come from (`Filling.CopyEasy`, `Leaves.NoMoreLeaves`).

## How the model is built

Each layer is a class or a set of methods proved against functions on values, and each has one
invariant that the layer above uses.

| file | layer |
|---|---|
| `AvailTable`, `Layout`, `Space`, `Allocator`, `AvailStack` | free tables, the file, who owns which byte, the allocator, the walk over spilled tables |
| `Sequences`, `Cache`, `CacheOps`, `Logarithm` | the bucket cache |
| `Bits`, `HashTable`, `Directory`, `Content`, `Growth`, `Leaves`, `Filling` | bucket tables, the directory, what a database contains, and how the directory grows |
| `Ledger`, `Integrity`, `Splitting`, `Database` | the whole database and its operations |
| `Runs`, `Safety`, `Reopen` | runs, disjointness of space, opening again |
| `Traversal`, `Sequential`, `Recovery` | walking, counting, checking, copying |
| `Octets`, `Base64`, `DumpFormat`, `Dump`, `Transfer` | the ASCII dump |
| `Snapshot`, `Restore`, `CrashRuns` | the crash-tolerance protocol, opening what it saved, and runs with it |
| `Findings` | the inputs for the findings below |

The file is a sequence of cells: a byte of user data, or one byte of the memory image of a structure.
A ghost map gives every byte below `nextBlock` one owner; the allocator, the cache and the operations
are all specified by what they do to that map. `DatabaseFile.Valid` is the invariant between
operations: the directory invariant, the free tables, the records in the file, the cache against the
file (buckets and the one cached key/data pair), and the header and directory on disk.

Where code and comments disagree the code is followed.

## Findings

* *Stale cache slot* (src/bucket.c:303, 327, 335). `cache_lookup` finds the slot for a new element,
  evicts the least recently used one, and stores through the slot found before. The new element stays
  unlinked exactly when the victim is the last element of the chain the slot belongs to
  (`Cache.StoredAfterEviction`); `Findings.StaleSlot` is an instance with a cache of four buckets.
  No stale bucket is ever used because of it, and with a cache of fixed size nothing goes wrong at
  all. But the bucket gets a second element when it is looked up again, and a cache that resizes itself
  aborts the process when it meets both (`Findings.TwoForOne`); or a dead address is found where a new
  bucket is to be cached, and the database is marked as needing recovery. Such a cache evicts only if
  it is as large as the directory and full, which `CacheOps.BucketCache.NoStaleLink` rules out as long
  as there is room for every bucket.
* *Pop with a full header table* (src/falloc.c:235-248). When merging the popped table fills the
  header's, the table is spilled again and the link to the new block is overwritten: that block and its
  entries are forgotten. This happens exactly if the two tables together have as many entries as the
  header's can hold and no two of them touch (`Allocator.FileSpace.PopAvailBlock`), and then bytes are
  lost; `Findings.PopForgets` is an instance for every even capacity. Nothing is handed out twice. The
  second spill of that function (src/falloc.c:254-265) never happens.
* *Directory at the end of the file* (src/gdbmopen.c:99-103, 145-149). The header's validation asks for
  `dir + dir_size < st_size`. A doubled directory can be the last thing in the file, and then the
  database it belongs to is refused with `GDBM_BAD_HEADER`; `Reopen.Open` shows that this is the only
  case, and `Findings.Refused` that the invariant admits it. A snapshot taken by `write_header`
  (src/update.c:51-52) comes before the file is extended, so that the clone can be shorter than
  `next_block` and the directory just written at its end.
* *A second comment after a length* (src/gdbmload.c:130-132). The loop at the start of `get_data` goes
  on while the line at hand begins with the comment mark, and never uses that line up: on such a line
  it has not ended after any number of rounds, and otherwise it ends in the first
  (`Dump.DumpReader.SkipRound`, `SkipRounds`). The line at hand is the first one that `get_parms` has
  left, so the loader hangs exactly if the length of a datum is positive and that line is marked
  (`DumpFormat.DataFollows`). One comment after a length is harmless, since `get_parms` uses it up; two
  are not (`Findings.SecondComment`, `Findings.NeverEnds`).
* *Dumps without a final parameter block* (src/gdbmload.c:547-557). The loader means to accept them: if
  no key was found, it asks whether the end of the file has been met. But at the end of the file
  `get_parms` reports just that, and not that there is no key, so the question is never asked
  (`Transfer.NextEntry`), and such a dump is turned down after all its records have been stored
  (`Transfer.LoadAscii`).
* *Block boundaries* (src/falloc.c:61-63). The remark that an allocation of at most a block does not
  cross a block boundary does not hold: a free entry merged from pieces of two blocks is used as it is
  (`Findings.CrossesBlock`).

## Model

| member | source | states |
|---|---|---|
| `AvailTable.Lookup` | src/falloc.c:363-380 | the bisection finds a place with nothing larger before it and nothing smaller from it on |
| `AvailTable.GetElem` | src/falloc.c:401-420 | best fit: the entry fits, and no entry left is both large enough and smaller; nothing is found only if nothing fits; the bytes covered are exactly divided |
| `AvailTable.Coalesce` | src/falloc.c:435-458 | the covered bytes stay the same; nothing is absorbed exactly if no entry touches the new one; a table with nothing to coalesce ends up with nothing that touches the grown entry |
| `AvailTable.PutElem` | src/falloc.c:426-466 | size order is kept, the covered bytes are exactly those before plus the new ones, the table gets one entry longer exactly if nothing is merged, and with merging "no two adjacent entries" is kept |
| `AvailTable.MergedNext` | src/falloc.c:226-235 | adding entries one after the other gives every one its own place exactly if no two of them touch |
| `Allocator.SplitTable` | src/falloc.c:311-318 | the loop splits a table into its even and odd positions |
| `Allocator.FileSpace.constructor` | src/gdbmopen.c:526-541 | the space of a new database satisfies the allocator's invariant, every byte owned |
| `Allocator.FileSpace.Existing` | src/gdbmopen.c:596-680 | so does the space of a database opened again |
| `Allocator.FileSpace.GetBlock` | src/falloc.c:476-495 | the fewest whole blocks at the end that hold the size |
| `Allocator.FileSpace.TakeSpace` | src/falloc.c:291-295 | the header's best fit, or whole blocks at the end exactly if nothing fits; no other byte changes hands |
| `Space.HalfTable` | src/falloc.c:287-289 | the block for a spilled table has room for half the bytes of a full one |
| `Allocator.FileSpace.PushAvailBlock` | src/falloc.c:277-357 | half the full header table moves to a new top block on disk; ownership of all other bytes and all bytes held for others are unchanged, and nothing is lost |
| `Allocator.FileSpace.SplitHeader` | src/falloc.c:297-318 | the even entries stay, the odd ones become the spilled table, in transit until it is written |
| `Allocator.FileSpace.Allocate` | src/falloc.c:68-108 | the current bucket's best fit, else the header's (refilled from the stack if it runs low), else the end of the file, which grows only if nothing fits; the region belonged to nobody, every byte held for somebody keeps owner and contents, at most two slivers are given up, the header changes exactly if it was needed or the rest of a bucket's entry has to go there, and bytes are lost exactly if there is a pop that fills the header |
| `Allocator.FileSpace.FindSpace` | src/falloc.c:73-94 | which entry is taken and that nothing else changes: best fit in the bucket; else best fit in the header's table, which has been merged with the spilled one first if it ran low; new blocks exactly if nothing there fits |
| `Allocator.FileSpace.PutInHeader` | src/falloc.c:127-137 | a released region becomes free space of the header, which is spilled first if its table is full; without a spill the table gains the region, merged as the option says, and the bucket's is untouched |
| `Allocator.FileSpace.Release` | src/falloc.c:115-162 | the header changes exactly if it has before or a region worth recording is as large as a block, or free space is central, or the bucket's table is full; the region joins the header's table or the bucket's accordingly, byte for byte, and only then, if the header has changed, the two tables trade; at most four bytes become a sliver, and no other byte held for somebody changes |
| `Allocator.FileSpace.PutInTable` | src/falloc.c:127-155 | which table it is: the header's for a large region, or if free space is central, or the bucket's table is full, else the bucket's; the other one is as before |
| `Allocator.FileSpace.PutInBucket` | src/falloc.c:138-143 | a small region joins the current bucket's table, byte for byte, merged as the option says |
| `Allocator.FileSpace.PopAvailBlock` | src/falloc.c:175-271 | the top block leaves the stack and its entries and its own bytes join the header's, byte for byte; bytes are lost exactly if the two tables together fill the header's and no two entries touch |
| `Allocator.FileSpace.UnloadTop` | src/falloc.c:175-248 | the same up to the release of the block itself |
| `Allocator.FileSpace.MergeTop` | src/falloc.c:222-245 | the merge overflows exactly if the entries are as many as the table can hold and no two of them touch |
| `Allocator.FileSpace.MergeEntries` | src/falloc.c:226-235 | entries join the header while there is room, byte for byte; every one takes a place of its own exactly if none touches another |
| `Allocator.FileSpace.ReadAvailBlock` | src/falloc.c:35-49 | the block on disk is the top of the stack and passes validation |
| `Allocator.FileSpace.AdjustBucketAvail` | src/falloc.c:501-536 | fewer than two entries: the bucket gets the header's largest; more than four: it hands over its smallest one by one until four are left or the header is full; otherwise nothing changes; only free bytes change hands |
| `Allocator.FileSpace.MoveToBucket` | src/falloc.c:509-516 | the header's largest entry goes to the bucket, byte for byte |
| `Allocator.FileSpace.MoveToHeader` | src/falloc.c:521-534 | the bucket's smallest entry goes to the header, byte for byte |
| `Allocator.UnstackTop` | src/falloc.c:191-220 | taking the top block off the stack leaves a sound space with its entries in transit |
| `Allocator.ForgetTop` | src/falloc.c:247-248 | overwriting the link forgets exactly the top block and its entries, and at least the first byte of the block |
| `AvailStack.OffMap.Lookup` | src/avail.c:150-185 | an offset is found exactly if it was recorded; otherwise it is inserted in order |
| `AvailStack.OffMap.Expand` | src/avail.c:121-147 | growing the array keeps its contents |
| `AvailStack.Traverse` | src/avail.c:207-276 | on any header and any file the walk ends, and succeeds exactly when the chain is acyclic, each of its blocks is held by the file, and in these and the header's the entries fit the table and the block, and every byte they list lies behind the header block and before next_block |
| `AvailStack.ValidMeansGood` | src/avail.c:76-90 | validation of a block, in bytes: it accepts exactly the blocks whose entries fit and list only bytes between the header and the end of the space |
| `AvailStack.ReadMeansGood` | src/falloc.c:35-49 | a block is read from an address exactly if the file holds it there and it is good |
| `Layout.TableBytes` | src/avail.c:48-73 | validation of a table accepts it exactly if every byte it lists, and the place of every empty entry, is in the range |
| `Database.BucketBytes` | src/bucket.c:416-432 | a bucket passes exactly if count, depth and number of free entries are in range and it lists as free only bytes between the header and the end of the space |
| `AvailStack.Verify` | src/avail.c:287-290 | it finds nothing wrong in any state the allocator keeps, the header's own block included |
| `HashTable.FindEmpty` | src/gdbmstore.c:137-146 | the first empty slot from the home slot on, or -1 exactly if the table is full |
| `HashTable.Inserted` | src/gdbmstore.c:148-153 | an element put there can be found by probing, and so can all others |
| `HashTable.MustMoveMeaning` | src/gdbmdelete.c:70-71 | the index test holds exactly when the hole is on the element's probe path |
| `HashTable.MoveStep` | src/gdbmdelete.c:70-77 | moving such an element keeps all probe paths and lowers the total displacement |
| `HashTable.RemoveAt` | src/gdbmdelete.c:58-79 | exactly one element goes, all others can still be found, and the loop ends even on a full table |
| `Logarithm.Ceiling` | src/bucket.c:220-237 | the exponent of the least power of two not below the number |
| `Logarithm.CacheBitsFit` | src/bucket.c:710-734 | the cache gets the least power of two of places that holds the size asked for, and four at least |
| `Cache.LookupSlot` | src/bucket.c:60-81 | the slot of an address: its element, or the end of its chain |
| `Cache.ChainedStore` | src/bucket.c:335 | storing through that slot links the new element and keeps chains by hash without repeated addresses |
| `Cache.ChainedRemove` | src/bucket.c:178-199 | unlinking removes exactly one element from the table |
| `Cache.StoredAfterEviction` | src/bucket.c:303-336 | after an eviction the new element is linked exactly unless the victim was the tail of the chain |
| `Cache.WroteBucket` | src/bucket.c:676-702 | writing a changed bucket keeps cache, file and live buckets in agreement |
| `Cache.EvictedLast` | src/bucket.c:203-213 | so does dropping the least recently used element |
| `Cache.EnteredAt` | src/bucket.c:90-115 | so does linking a new one into the list |
| `Cache.MovedToFront` | src/bucket.c:341-352 | so does moving one to the head of the list |
| `CacheOps.BucketCache.WriteBucket` | src/bucket.c:676-702 | the bucket's image is on disk, the element is clean, nothing but its bytes has changed |
| `CacheOps.BucketCache.Flush` | src/bucket.c:760-769 | exactly the leading run of changed elements is written |
| `CacheOps.AllClean` | src/bucket.c:755-769 | if the changed elements come first in the list, the early-stopping flush writes them all |
| `CacheOps.BucketCache.ElemFree` | src/bucket.c:178-199 | the element leaves list and table |
| `CacheOps.BucketCache.LruFree` | src/bucket.c:203-213 | the last element goes, written first if changed |
| `CacheOps.BucketCache.TabResize` | src/bucket.c:240-286 | the most recently used elements that fit stay, in order, each found by lookup, nothing changed is lost; the process aborts exactly if two of them have one address |
| `CacheOps.BucketCache.DropSurplus` | src/bucket.c:266-283 | the surplus leaves from the old end of the list |
| `CacheOps.BucketCache.RelinkAll` | src/bucket.c:266-283 | every element that stays is linked, unless an address is met twice |
| `CacheOps.BucketCache.StoreNew` | src/bucket.c:303-337 | room is made by growing or evicting; the new element is linked exactly unless the link went stale |
| `CacheOps.FewElements` | src/bucket.c:303-337 | while every element is linked, the cache holds no more elements than there are buckets, and fewer if a bucket is not cached |
| `CacheOps.BucketCache.NoStaleLink` | src/bucket.c:316-328 | with room for every bucket, now or once it has grown as deep as the directory, the cache evicts nothing and no link goes stale |
| `CacheOps.BucketCache.Acquire` | src/bucket.c:296-353 | the bucket becomes most recently used; a cached one is up to date; a new one is up to date on disk; changed elements stay first; with room for the other buckets nothing is left unlinked |
| `CacheOps.BucketCache.AcquireAfter` | src/bucket.c:296-353 | a newly allocated address is never found in the cache unless a dead element was relinked; with room for all buckets nothing is left unlinked |
| `CacheOps.BucketCache.Fill` | src/bucket.c:632-634 | rewriting a cached bucket changes the live bucket and nothing else |
| `CacheOps.BucketCache.Discard` | src/bucket.c:640-644 | the split bucket's element and address are gone, also where copies of it were left unlinked |
| `CacheOps.BucketCache.Supplant` | src/bucket.c:632-660 | the two new elements take its place, both changed, the wanted one first |
| `Content.HashKey` | src/hash.c:30-44 | the loop computes the hash |
| `Content.HashSum` | src/hash.c:30-44 | the hash in one formula, a weighted sum of the signed characters: of the masks and overflows on the way only the last one matters |
| `Content.HashExamples` | src/hash.c:30-44 | the hash of the empty key and of "abc" |
| `Content.Entered` | src/gdbmstore.c:148-159 | a new or changed slot keeps keys and slots in one-to-one correspondence |
| `Content.Removed` | src/gdbmdelete.c:51-79 | so does taking a slot out |
| `Content.StoreDoubled` | src/bucket.c:537-567 | doubling the directory changes no key's bucket |
| `Content.StoreDivided` | src/bucket.c:570-630 | dividing a bucket by the next hash bit keeps every key, and the directory invariant |
| `Content.BucketKeys` | src/bucket.c:464 | a bucket's count is the number of keys whose hash leads to it |
| `Growth.CountSharing` | src/bucket.c:464 | that number is the number of keys that agree with the hash on the depth of the bucket |
| `Growth.ShapeGrown` | src/bucket.c:549-553 | doubling: every depth appears twice in a row |
| `Growth.ShapeDivided` | src/bucket.c:622-630 | a division: exactly the entries that agree with the hash on the depth of its bucket get one bit deeper, and there is one bucket more |
| `Growth.NextRound` | src/bucket.c:464-661 | a round that is easy to begin leads to the shape worked out beforehand, from which the rest is easy |
| `Growth.EasyIfSmall` | src/bucket.c:486-521 | a split is easy if it leaves fewer buckets, by two, than the directory or the cache had entries before |
| `Growth.EasierStill` | src/bucket.c:316-322 | a larger cache makes no split harder |
| `Leaves.RoundLeaves` | src/bucket.c:583-630 | seen as leaves of a tree of hash prefixes, the bucket of the hash gives way to its two halves, and no other changes |
| `Leaves.RoomNeeded` | src/bucket.c:464-661 | making room for a new key splits only where more keys share the prefix than a bucket holds |
| `Leaves.NoDeeper` | src/bucket.c:464 | a database with these keys, and buckets no larger, is at least as deep at every hash |
| `Leaves.NoMoreLeaves` | src/bucket.c:464 | so it has at least as many buckets |
| `Filling.FewBucketsEasy` | src/bucket.c:316-328 | filling a database is easy if it ends with fewer buckets, by two, than the directory or the cache had entries |
| `Filling.OneListing` | src/gdbmseq.c:52-84 | a database has one list of records in the order of the walk |
| `Filling.CopyEasy` | src/recover.c:259-352 | a new database filled with the records of another one, with buckets no smaller, gets no more buckets, and the filling is easy if these are fewer, by two, than its first directory or cache has entries |
| `Directory.Double` | src/bucket.c:549-553 | every entry appears twice in a row |
| `Directory.Divide` | src/bucket.c:622-630 | the run arithmetic and the two loops rewrite exactly the bucket's run, each entry by its next index bit |
| `Directory.DoubledOk` | src/bucket.c:523-568 | every bucket of depth b still owns one aligned run of 2^(dir_bits-b) entries |
| `Directory.DoubledLookup` | src/hash.c:47-50 | every hash still leads to the same bucket |
| `Directory.DividedOk` | src/bucket.c:622-630 | the halves of the run belong to the new buckets, the invariant holds at depth b+1 |
| `Directory.DividedLookup` | src/bucket.c:583-584 | a hash that led to the old bucket leads to the new one its next bit selects; no other hash is affected |
| `Splitting.Redistribute` | src/bucket.c:570-590 | each element goes to the bucket of its next bit, and both tables can be probed |
| `Splitting.DivideAvail` | src/bucket.c:592-620 | the first new bucket gets the old free entries, the second the new block, and the first entry of a full table joins the block; byte for byte, within the tables' capacity |
| `Splitting.ShareAvail` | src/bucket.c:592-657 | and the old bucket joins the table of the one that does not become current |
| `Splitting.BucketBorn` | src/bucket.c:486-521 | an allocated block is no existing bucket's, and becomes one |
| `Splitting.DirectoryGrown` | src/bucket.c:537-567 | the new directory takes over, the old one's space awaits release |
| `Splitting.SpaceShared` | src/bucket.c:592-657 | the old bucket, its free space and the new block end up in exactly one of the two free tables |
| `Splitting.SplitSound` | src/bucket.c:464-661 | a split keeps the whole database sound, with the same keys and values |
| `Database.DatabaseFile.constructor` | src/gdbmopen.c:446-595 | a new file satisfies the whole invariant and stands for the empty map, with one bucket for all directory entries; the block size asked for, or the file system's if that is below 512, determines the depth of the directory, buckets hold the most elements that fit a block and the header the most free entries |
| `Database.DatabaseFile.Existing` | src/gdbmopen.c:596-712 | header and directory read back restore invariant and contents, also from a file that is shorter than the header says |
| `Database.ComputeDirectorySize` | src/gdbmopen.c:26-43 | the least power of two that covers the block size, with a depth of at most 27 |
| `Database.DepthUnique` | src/gdbmopen.c:26-43 | the block size determines the depth of the first directory |
| `Database.Geometry` | src/gdbmopen.c:46-73 | block size and directory depth from the block size asked for, or the file system's if that is too small; buckets and header hold as many elements and free entries as fit, and no more |
| `Database.ElementCount` | src/gdbmopen.c:46-50 | one element more would not fit the bucket |
| `Database.FirstImage` | src/gdbmopen.c:526-588 | header, directory and first bucket are on disk, block by block |
| `Database.DatabaseFile.GetBucket` | src/bucket.c:368-446 | the right bucket becomes current and the validity checks cannot fail; a cache that resizes itself leaves no element unlinked |
| `Database.FewBuckets` | src/bucket.c:622-630 | there are at most as many buckets as directory entries |
| `Database.DatabaseFile.Arrive` | src/bucket.c:383-391 | the bucket of a directory entry is found or made the most recent element, and the rest of the invariant is kept |
| `Database.DatabaseFile.LoadCurrent` | src/bucket.c:392-437 | the bucket read from the file passes validation and is the live one |
| `Database.DatabaseFile.ReadEntry` | src/findkey.c:60-146 | what is returned, from the one-entry cache or the file, is the key and value of the slot |
| `Database.DatabaseFile.CachedKey` | src/findkey.c:182-193 | the cached pair is used only if it is the key's, and then it is current |
| `Database.DatabaseFile.Probe` | src/findkey.c:195-242 | with the hash, length and prefix filter, probing finds a key exactly if it is stored, also in full tables |
| `Database.DatabaseFile.Compare` | src/findkey.c:200-233 | a slot passes the filter and the comparison exactly if it is the key's |
| `Database.DatabaseFile.FindKey` | src/findkey.c:158-248 | the slot and value of the key, or -1 exactly if it is not stored |
| `Database.DatabaseFile.AllocCurrent` | src/falloc.c:68-108 | an allocation for the current bucket keeps the whole database sound |
| `Database.DatabaseFile.ReleaseCurrent` | src/falloc.c:115-162 | so does a release |
| `Database.DatabaseFile.Fetch` | src/gdbmfetch.c:29-73 | the value of the key, or none exactly if it is not stored |
| `Database.DatabaseFile.Store` | src/gdbmstore.c:39-197 | inserts or replaces; 1 and no change for an insert on a stored key; fails exactly on a new key with a bucketful of neighbours, with a self-resizing cache if the splits begin with room; the directory gets the shape worked out from the keys |
| `Database.DatabaseFile.ReplaceCurrent` | src/gdbmstore.c:84-109 | the value changes and nothing else; with a value of the same size the record stays where it is and no space changes hands |
| `Database.DatabaseFile.MoveRecord` | src/gdbmstore.c:92-122 | the record gives up its region and gets one of the new size; the database stays sound, the bucket's table untouched |
| `Database.DatabaseFile.ReserveRecord` | src/gdbmstore.c:115-122 | a new key gets a region of its own, and the database stays sound |
| `Database.DatabaseFile.InsertCurrent` | src/gdbmstore.c:115-159 | the new key is stored exactly if its bucket can be split until it has room; the directory gets the shape worked out from the keys |
| `Database.DatabaseFile.MakeRoom` | src/gdbmstore.c:129-134 | there is room afterwards exactly if the key has fewer neighbours than a bucket holds; with a self-resizing cache, if the splits begin with room, which is decided before |
| `Database.DatabaseFile.InsertSlot` | src/gdbmstore.c:136-159 | a slot is found and filled; the "bad hash table" error cannot occur |
| `Database.DatabaseFile.Complete` | src/gdbmstore.c:161-196 | afterwards key and value are in the file and everything that changed is written |
| `Database.DatabaseFile.Split` | src/bucket.c:453-669 | ends; the key's bucket has room and all old directories are released, or the directory cannot grow; the arrays of old directories do not overflow; the shape is the one worked out beforehand, and if its rounds begin with room no element is left unlinked |
| `Database.DatabaseFile.SplitOnce` | src/bucket.c:464-661 | one round: the depth grows by one, the key's bucket is current, nothing stored changes; it cannot fail if there are two entries or cache places more than buckets |
| `Database.DatabaseFile.FreshBucket` | src/bucket.c:486-521 | a new bucket is allocated and cached behind the current one; the "should not happen" branch is unreachable unless a dead element was relinked; with room for all buckets nothing is left unlinked |
| `Database.DatabaseFile.FreshPair` | src/bucket.c:486-521 | both new buckets of a round, under the condition that there is room for one more bucket than there are |
| `Database.DatabaseFile.GrowDirectory` | src/bucket.c:523-568 | the directory doubles exactly below depth 27, and the current entry follows |
| `Database.DatabaseFile.GrowForSplit` | src/bucket.c:523-568 | a bucket as deep as the directory: the directory is doubled, or the key has a bucketful of neighbours |
| `Database.DatabaseFile.ShareOut` | src/bucket.c:570-660 | elements, free space and directory run are divided between the new buckets; the entries that led to the old one are one bit deeper |
| `Database.DatabaseFile.Commit` | src/bucket.c:622-660 | cache, directory and books change over together |
| `Database.DatabaseFile.ReleaseDirectories` | src/bucket.c:663-666 | the old directories' space goes back, oldest first |
| `Database.OverflowCrowded` | src/bucket.c:531-536 | a full bucket that cannot be split holds only keys that agree on 27 hash bits |
| `Database.RoomNotCrowded` | src/bucket.c:464 | and a bucket with room shows that there are fewer of them |
| `Database.DatabaseFile.Delete` | src/gdbmdelete.c:29-97 | exactly the key goes; -1 and no change if it was not stored |
| `Database.DatabaseFile.RemoveCurrent` | src/gdbmdelete.c:51-79 | exactly the key goes, from the bucket and from the file's books |
| `Database.WithoutSlot` | src/gdbmdelete.c:58-79 | the deletion loop run on the bucket's table |
| `Database.DatabaseFile.DisposeRecord` | src/gdbmdelete.c:81-96 | the record's space goes back and the cached pair is dropped |
| `Database.DatabaseFile.EndUpdate` | src/update.c:61-106 | afterwards nothing is left to be written, and cache, file and contents agree |
| `Database.DatabaseFile.FlushBuckets` | src/update.c:67 | every changed bucket has been written and no cached pair is stale |
| `Database.DatabaseFile.WriteDirectory` | src/update.c:70-93 | the directory is on disk and the rest of the invariant is kept |
| `Database.DatabaseFile.WriteHeader` | src/update.c:96-103 | the header is on disk, the file is as long as it says, and the rest of the invariant is kept |
| `Database.DatabaseFile.WriteHeaderBlock` | src/update.c:27-55 | when the header has been written and a snapshot is taken, the file can be opened with the contents of this moment, though it may be shorter than the header says |
| `Database.DatabaseFile.ExtendFile` | src/fullio.c:85-128 | extending the file completes the invariant |
| `Database.DatabaseFile.FourBlocks` | src/gdbmopen.c:526-588 | header, directory, one bucket and its free space, in either order, make a database in good state |
| `Runs.Perform` | src/gdbmstore.c:39-197 | one operation answers as the specification does and leads to a state that stands for its next state; with a self-resizing cache under a condition on the state before it, and only for stores of new keys; the directory gets the shape worked out beforehand |
| `Runs.Run` | src/gdbmstore.c:39-197 | a whole sequence does, on any database in good state; with a self-resizing cache if the operations are smooth, which is decided before the run |
| `Runs.FewBucketsSmooth` | src/bucket.c:316-328 | a run is smooth if it ends with fewer buckets, by two, than the first directory or the first cache has entries |
| `Runs.SmoothSoFar` | src/gdbmopen.c:707 | a smooth run is smooth up to every moment of it |
| `Runs.Session` | src/gdbmopen.c:245-756 | and so does any sequence from a new file on, with any cache size and with the self-resizing cache that gdbm_open sets up; the numbers its condition depends on are determined by the block size: the directory is the least that covers it, and a bucket holds as many elements as fit |
| `Safety.NoOverlap` | src/falloc.c:68-162 | header, directory, buckets, records, spilled tables and all free entries are pairwise disjoint and below next_block |
| `Safety.EveryByte` | src/falloc.c:115-162 | every byte below next_block is in one of them, except slivers and what a pop has forgotten |
| `Reopen.ValidateHeader` | src/gdbmopen.c:76-165 | on any header: it is accepted exactly if it has room for its free table, the directory lies before the end of the file and has the size that block size and depth demand, and the buckets are filled with elements; a header the program wrote, exactly when the directory ends before the file does |
| `Reopen.BitsDetermined` | src/gdbmopen.c:108-110 | the directory's depth is recovered from its size |
| `Reopen.Open` | src/gdbmopen.c:596-712 | the database is opened with the same contents, directory and buckets, and the options asked for, exactly when the directory is not the last thing in the file, also if the file has not been extended yet |
| `Traversal.NextBucketDir` | src/recover.c:194-206 | the next directory entry with another bucket |
| `Traversal.RunsContiguous` | src/bucket.c:622-630 | a bucket's directory entries are adjacent |
| `Traversal.WalkComplete` | src/gdbmseq.c:52-84 | the walk meets every key's slot exactly once |
| `Sequential.Advance` | src/gdbmseq.c:59-84 | the next element of the walk, across shared directory entries |
| `Sequential.GetNextKey` | src/gdbmseq.c:52-112 | its key; the consistency check cannot fail |
| `Sequential.FirstKey` | src/gdbmseq.c:119-148 | the first key of the walk |
| `Sequential.NextKey` | src/gdbmseq.c:154-193 | the key after the given one; none at the end or for a key that is not stored |
| `Sequential.VisitAll` | src/gdbmseq.c:119-193 | repeated, they visit every key exactly once |
| `Sequential.Count` | src/gdbmcount.c:24-41 | the size of the map |
| `Sequential.BucketCount` | src/gdbmcount.c:44-57 | the number of buckets |
| `Recovery.CheckDb` | src/recover.c:209-256 | in every state the operations lead to, something is found wrong exactly if the directory is the last thing in the file |
| `Recovery.CheckHeader` | src/gdbmopen.c:203-218 | the header passes exactly if the directory ends before the file does |
| `Recovery.CheckBucket` | src/recover.c:223-252 | the same for one bucket |
| `Recovery.CheckElement` | src/recover.c:229-250 | on any slot and any bytes: an element passes exactly if the bytes begin with a key that has the prefix and the hash on record, and the directory leads from there to this bucket |
| `Recovery.RunRecovery` | src/recover.c:259-352 | the new database has the same map, recovered_keys is its size, recovered_buckets the number of buckets, and there are no duplicates; with a self-resizing cache under a condition on the records, which holds whenever the database has two buckets fewer than the new directory or cache has entries |
| `Recovery.CopyBucket` | src/recover.c:283-346 | the elements of one bucket are copied and counted; the directory of the copy gets the shape worked out from the records, and if that is easy nothing goes wrong |
| `Recovery.CopySlot` | src/recover.c:288-345 | one element is copied; it cannot be there already, and the directory of the copy gets the shape worked out from the records |
| `Recovery.EasyCopy` | src/recover.c:407 | a new database with room for two buckets more than the old one has can take its records easily |
| `Recovery.SomeRoom` | src/recover.c:317 | copying cannot overflow the directory |
| `Base64.Encode` | src/base64.c:35-76 | the loop computes the encoding, within the size allotted |
| `Base64.Decode` | src/base64.c:79-127 | the loop computes the decoding, within the size allotted |
| `Base64.EncodeLast` | src/base64.c:63-72 | the last one or two bytes |
| `Base64.DecodeFour` | src/base64.c:101-118 | one group of four characters, or the error |
| `Base64.Table` | src/base64.c:21-22 | the alphabet is Table 1 of RFC 4648, written out |
| `Base64.Values` | src/base64.c:24-33 | a character has the value of its place in that table, and none exactly if it is not there |
| `Base64.EncodedAt` | src/base64.c:35-76 | every character of an encoding is the letter for the next six bits of the input, with zeros after its end, or a pad behind the last bit (section 4 of RFC 4648) |
| `Base64.DecodedAt` | src/base64.c:79-127 | every byte of the decoding of a well-formed text is the next eight bits of its letters, and exactly the bytes of the pads are missing |
| `Base64.DecodedUpTo` | src/base64.c:98-122 | any text is decoded up to the first group with a character that is neither a letter nor a pad in its second half, and succeeds exactly if there is none |
| `Octets.Sextet1` | src/base64.c:56 | the second sextet of three octets, by shifts and masks, is the remainder of the first and the quotient of the second |
| `Octets.Sextet2` | src/base64.c:57 | the third sextet |
| `Octets.Octet0` | src/base64.c:112 | the first octet of four sextets, put together by shifts |
| `Octets.Octet1` | src/base64.c:115 | the second octet |
| `Octets.Octet2` | src/base64.c:117 | the third octet |
| `Base64.RoundTrip` | src/base64.c:35-127 | every encoding decodes to the original and is used up |
| `DumpFormat.NumberRoundTrip` | src/gdbmload.c:299-317 | a printed length is read back |
| `DumpFormat.HighestFirst` | src/gdbmload.c:299-317 | digits have their places, the highest first |
| `DumpFormat.DatumRead` | src/gdbmload.c:326-361 | a printed datum is read back and reading stops after it; an empty one with its mark, or, as in version 1.1 of the format, followed at once by the next length, by the count, or by the end of the file |
| `DumpFormat.PutBack` | src/gdbmload.c:212-256 | once a length has been seen, a line with a length or a count is put back as it is |
| `DumpFormat.TwoParms` | src/gdbmload.c:209-287 | two parameters on one line: a second length puts the rest of the line back, a count after a length the whole line; all others are both taken |
| `DumpFormat.QuotedTaken` | src/gdbmload.c:266-275 | a quoted value may contain commas and ends with the quote |
| `DumpFormat.TrailerRead` | src/gdbmload.c:544-561 | at the trailer no record is found, and the count is read |
| `DumpFormat.HeaderRead` | src/gdbmload.c:492-503 | the header is passed over |
| `DumpFormat.ScanFits` | src/gdbmload.c:196-207 | the parameters of a line fit the buffer grown for it |
| `Dump.PrintDatum` | src/gdbmdump.c:25-54 | length, then the encoding in lines of at most 76 characters, or a mark if it is empty |
| `Dump.DumpReader.GetDumpLine` | src/gdbmload.c:77-119 | the next line, whole, however long it is, within the buffer; a line that has not been used up stays as it is |
| `Dump.DumpReader.CollectParms` | src/gdbmload.c:163-296 | the parameters before the next data, as specified |
| `Dump.DumpReader.ParmLine` | src/gdbmload.c:190-286 | one line of parameters, used up or put back |
| `Dump.DumpReader.CollectData` | src/gdbmload.c:122-160 | the data lines up to the next mark, within the buffer, or the end of the file, whenever the loop at its start ends |
| `Dump.DumpReader.SkipRound` | src/gdbmload.c:130-132 | a round of that loop goes on exactly if the line at hand is marked, and then leaves the reader as it is |
| `Dump.DumpReader.SkipRounds` | src/gdbmload.c:130-132 | so on a marked line the loop has not ended after any number of rounds |
| `Dump.DumpReader.ReadRecord` | src/gdbmload.c:326-361 | one datum, or the reason why there is none, the end of the file included |
| `Transfer.DumpAscii` | src/gdbmdump.c:57-135 | the text lists every key once with its value, in the format of the database's header, with their number at the end |
| `Transfer.LoadAscii` | src/gdbmload.c:483-584 | loading the text of any records, with or without marks for empty data, stores them in order; it succeeds exactly if each is new and has room, or is old and may be replaced, and a final block gives their number; without it, or with another number, the records are stored all the same; with a self-resizing cache under a condition on the records |
| `Transfer.LoadNext` | src/gdbmload.c:541-573 | one record: both parts are read, or the reason why not, and stored, or the trailer with its count is met |
| `Transfer.NextEntry` | src/gdbmload.c:541-561 | what is read next: the next record; the count, if there is one; or the end of the file, which is not the "no key" the loader asks about |
| `Transfer.WalkStorable` | src/gdbmload.c:567 | the records of a database can be stored in another one exactly if no key has more neighbours than a bucket of that one holds |
| `Transfer.CopyByDump` | src/gdbmload.c:483-584 | dumped and loaded into an empty database every map comes back, exactly if the new buckets can hold the neighbours of every key, as buckets of the old size can; with a self-resizing cache under a condition on the records, which holds whenever the database has two buckets fewer than the new directory or cache has entries |
| `Snapshot.LaterChosen` | src/gdbmsync.c:305-392 | of two readable clones the second is chosen exactly if its count is the successor modulo 2^32, or the counts do not tell and it is newer |
| `Snapshot.Verdicts` | src/gdbmsync.c:332-412 | every verdict, for any two files: an error exactly if one is in neither of the two states of the protocol; bad exactly if none is readable; suspicious exactly if both are and their counts are more than a step apart; same exactly if neither counts nor times tell; else the file that is readable, or the later one |
| `Snapshot.ModeStates` | src/gdbmsync.c:239-256 | the permission bits accepted are those of the two states |
| `Snapshot.BeforeCommit` | src/gdbmsync.c:99-128 | until the new clone is marked, every crash leads back to the last one, or, before the first, to the verdict that the snapshots are bad |
| `Snapshot.Committing` | src/gdbmsync.c:130-164 | while the marks change, every crash leads to one of two complete clones, and to the new one once its mark is on disk |
| `Snapshot.Snapshots.WriteClone` | src/gdbmsync.c:95-128 | every moment of the first half is safe, and recovery takes the other file |
| `Snapshot.Snapshots.CommitClone` | src/gdbmsync.c:130-164 | every moment of the second half is safe, and from the moment that the first mark is on disk recovery takes the new clone |
| `Snapshot.Snapshots.TakeSnapshot` | src/gdbmsync.c:77-167 | nine moments, all safe; in four recovery takes the old clone, in the last four the new one; the files have changed places |
| `Snapshot.Snapshots.FileSync` | src/gdbmsync.c:432-454 | the same for a synchronised update |
| `Snapshot.Snapshots.Sync` | src/gdbmsync.c:459-477 | the same for gdbm_sync: the count goes up by one modulo 2^32, with two snapshots outside fast mode |
| `Snapshot.Snapshots.constructor` | src/gdbmsync.c:171-220 | the same for gdbm_failure_atomic: thirteen moments; before the first snapshot is marked recovery reports an error while a file is missing, and bad snapshots afterwards |
| `Snapshot.Snapshots.CreateFiles` | src/gdbmsync.c:195-205 | the files come into being; recovery reports an error exactly while one is missing, so for certain before the second is made, and bad snapshots once both are on disk |
| `Snapshot.CrashAnywhere` | src/gdbmsync.c:77-477 | after any number of updates and synchronisations, every crash at every one of the 4 + 9n moments recovers, cell for cell, the database as the last snapshot or the one under way found it; before the first one is complete, that or the verdict that says why not |
| `Restore.OpenLatest` | src/gdbmsync.c:332-412 | the snapshot selected is opened with the contents of that moment exactly when the directory is not at its end |
| `CrashRuns.Transaction` | src/gdbmsync.c:459-477 | a group of operations and its synchronisation lead to the next state of the specification, and the snapshot is that state |
| `CrashRuns.Transactions` | src/gdbmsync.c:459-477 | every snapshot of a run is the specification's map after the groups before it; with a cache of fixed size the run stops only at a directory overflow |
| `CrashRuns.AfterCrash` | src/gdbmsync.c:332-412 | after a crash at any moment the snapshot selected is opened with the map after the last group synchronised, or the one being synchronised, exactly when its directory is not the last thing in it |
| `Findings.StaleSlot` | src/bucket.c:303-336 | four cached buckets and a fifth address: the new element is in no chain, and the address is not found again |
| `Findings.TwoForOne` | src/bucket.c:266-283 | the next lookup makes a second element for the address, and resizing the table would abort |
| `Findings.CombOk` | src/falloc.c:175-271 | a header with half its entries and a spilled table with as many satisfy the allocator's invariant |
| `Findings.PopForgets` | src/falloc.c:222-248 | a pop in that state loses bytes, at every even capacity |
| `Findings.DirectoryLast` | src/gdbmopen.c:99-103 | the invariant admits a database whose directory ends with the file |
| `Findings.Refused` | src/gdbmopen.c:99-103 | it is refused as having a bad header |
| `Findings.SecondComment` | src/gdbmload.c:182-188 | one comment after a length is used up, and of two the second is left |
| `Findings.NeverEnds` | src/gdbmload.c:130-132 | on that input the loop has not ended after any number of rounds |
| `Findings.CrossesBlock` | src/falloc.c:61-63 | 300 bytes are allocated across the boundary of two blocks of 512 |

## Left out

- System calls are taken to succeed: I/O, memory, seek and locking errors, fatal callbacks, error codes, memory mapping, retries and timers are not modelled; the only failure is the crash of the snapshot protocol.
- Integers are unbounded: sizes and file offsets do not overflow an `int` or `off_t`; the directory limit, the hash and the synchronisation count have their widths.
- Structures on disk are memory images as a whole; byte order, padding, magic numbers of other formats and format conversion (`gdbm_convert`) are not modelled.
- Readers, locking, permissions, the exact-block-size flag, `gdbm_setopt` (cache size, block merging and central free space are fixed when a database is opened), statistics and debugging output.
- `AvailTable.PutElem` and the other operations on free tables work on sequence values, as do the bucket tables, the directory and the collision chains: moving elements inside an array is modelled in place only for the deletion loop and the offset map.
- `Cache.LookupSlot` and the cache operations name elements by number and keep the list of last use as a sequence; the pool of freed elements and the list's own pointers are not modelled.
- `Content.HashKey` takes plain `char` as signed, as on the usual platforms.
- `Recovery.RunRecovery` copies into an empty database; renaming, backups and metadata of `gdbm_recover` are not modelled.
- `AvailStack.Traverse` does not model the sorting of a table that validation finds out of order; the tables the program keeps are in order.
- `Transfer.DumpAscii` leaves out the header lines with file name, owner, group and mode, and `Transfer.LoadAscii` the metadata they would restore.
- `Dump.DumpReader.CollectData` and `Dump.DumpReader.ReadRecord` are called only where the loop of get_data ends, which is exactly when no marked line is at hand.
- `Transfer.LoadAscii` is stated for the text of a dump in the present form or an earlier one, of any records.
- `CrashRuns.Transactions` is for fast mode, where gdbm_sync alone takes snapshots; for the snapshots that updates take in synchronous mode `Database.DatabaseFile.WriteHeaderBlock`, `Snapshot.CrashAnywhere` and `Restore.OpenLatest` state the parts.
- `Runs.Smooth` is sufficient and not necessary for a self-resizing cache: whether an eviction leaves an element unlinked depends on addresses too, exactly as `CacheOps.BucketCache.Acquire` and `CacheOps.BucketCache.AcquireAfter` state for one lookup.
- `DumpFormat.NumberRoundTrip`: numbers are strings of digits; blanks and signs that strtoul accepts are not modelled, and the character loop inside get_parms is a recursive function.
- `Snapshot.CrashAnywhere` assumes that no system call fails, that clones get strictly increasing times, and that only gdbm_sync changes the count; whether the count can be read from a clone is left open, and the result holds either way.
- Binary export and import, Berkeley DB dumps, the compatibility library, tools and tests.
