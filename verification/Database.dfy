/**
 A GDBM database: the directory, the bucket cache and the file space, and the operations on
 them (src/gdbmstore.c, src/gdbmdelete.c, src/gdbmfetch.c, src/findkey.c, src/update.c and the
 splitting of buckets in src/bucket.c).
 */
module Database {
  import opened Bits
  import opened AvailTable
  import opened Layout
  import opened Sequences
  import opened Space
  import opened Allocator
  import opened HashTable
  import opened Directory
  import opened Cache
  import opened CacheOps
  import opened Content
  import opened Growth
  import opened Ledger
  import opened Integrity
  import opened Splitting

  datatype SplitResult = Fits | Overflow | Corrupted | Died

  datatype Health = Good | NeedsRecovery | Dead

  /** GDBM_MAX_DIR_HALF: a directory of this size in bytes cannot be doubled. */
  const MAX_DIR_HALF: nat := 0x7fff_ffff / 2

  lemma SpaceFor(w: World, s: State, blockSize: nat, capacity: nat, cur: nat, young: set<nat>, spare: Region,
                 lost: set<Key>)
    requires w.Sound(young, spare, lost) && SpaceOk(s, blockSize, capacity) && s.own == w.own && cur in w.buckets
    ensures s.(cur := cur, av := w.buckets[cur].avail).Ok(blockSize, capacity)
  {
    hide State.Ok, Balanced, Catalog.Ok, Recorded;
    WithTable(s, blockSize, capacity, cur, w.buckets[cur].avail);
  }

  /** The deletion loop, on the bucket's own array. */
  method WithoutSlot(t: seq<Slot>, elemLoc: nat) returns (r: seq<Slot>)
    requires elemLoc < |t| && t[elemLoc].Elem? && Probeable(t)
    ensures |r| == |t| && Probeable(r) && multiset(r) == multiset(t) - multiset{t[elemLoc]} + multiset{Empty}
  {
    hide Probeable;
    var h := new Slot[|t|](i requires 0 <= i < |t| => t[i]);
    assert h[..] == t;
    HashTable.RemoveAt(h, elemLoc);
    r := h[..];
  }

  /** As many keys as a bucket can hold agree with `key` on all the hash bits a directory can use. */
  predicate Crowded(data: map<Key, Value>, key: Key, n: nat) {
    |set k | k in data && Neighbours(k, key)| >= n
  }

  predicate Neighbours(k: Key, l: Key) {
    Shr(Hash(k), HASH_BITS - MAX_DIR_BITS) == Shr(Hash(l), HASH_BITS - MAX_DIR_BITS)
  }

  /** Every directory entry leads to a bucket beyond the header. */
  lemma DirEntry(w: World, i: nat)
    requires w.Sound({}, NOTHING, {}) && i < |w.dir| && Painted(w.own, 0, w.size, FileHeader)
    ensures w.dir[i] in w.buckets && w.dir[i] >= w.size && w.dirBits <= HASH_BITS && |w.dir| == Pow2(w.dirBits)
    ensures w.buckets[w.dir[i]].bits <= w.dirBits
  {
    hide Recorded, Tabs, Catalog.Filled, BucketOk;
    assert w.buckets - {} == w.buckets;
    assert DirOk(w.dir, w.dirBits, Depths(w.buckets));
    hide Catalog.Ok;
    assert w.dir[i] in w.dir;
    assert Given(w.own, Region(w.dir[i], w.size), BucketAt(w.dir[i]));
    assert w.own[w.dir[i]] == BucketAt(w.dir[i]);
  }

  lemma ReachableAt(t: seq<Slot>, j: nat)
    requires Probeable(t) && j < |t| && t[j].Elem?
    ensures forall x :: 0 <= x < |t| && Dist(Home(t[j], |t|), x, |t|) < Dist(Home(t[j], |t|), j, |t|) ==> t[x].Elem?
  {
    assert Reachable(t, j);
    forall x | 0 <= x < |t| && Dist(Home(t[j], |t|), x, |t|) < Dist(Home(t[j], |t|), j, |t|)
      ensures t[x].Elem?
    {
      assert OnPath(Home(t[j], |t|), x, j, |t|);
    }
  }

  /** There are at most as many buckets as directory entries. */
  lemma FewBuckets(w: World)
    requires w.Sound({}, NOTHING, {})
    ensures |w.buckets| <= Pow2(w.dirBits)
  {
    hide Recorded, Tabs, Catalog.Filled, BucketOk, SharedRun, Pow2;
    assert w.buckets - {} == w.buckets;
    assert DirOk(w.dir, w.dirBits, Depths(w.buckets));
    MembersCount(w.dir);
    assert w.buckets.Keys == Members(w.dir);
    assert |w.buckets| == |w.buckets.Keys|;
  }

  ghost function Members(s: seq<nat>): set<nat> {
    set a | a in s
  }

  lemma {:induction false} MembersCount(s: seq<nat>)
    ensures |Members(s)| <= |s|
    decreases |s|
  {
    if |s| > 0 {
      var n := |s| - 1;
      MembersCount(s[..n]);
      assert s == s[..n] + [s[n]];
      assert Members(s) == Members(s[..n]) + {s[n]};
    }
  }

  /** The same buckets, of the same depths. */
  ghost predicate SameDepths(buckets: map<nat, Bucket>, buckets': map<nat, Bucket>) {
    Depths(buckets') == Depths(buckets)
  }

  lemma SameDepthsRefl(buckets: map<nat, Bucket>)
    ensures SameDepths(buckets, buckets)
  {
  }

  lemma SameDepthsTrans(a: map<nat, Bucket>, b: map<nat, Bucket>, c: map<nat, Bucket>)
    requires SameDepths(a, b) && SameDepths(b, c)
    ensures SameDepths(a, c)
  {
  }

  /** Buckets that change their contents keep their depths. */
  lemma DepthsKept(buckets: map<nat, Bucket>, buckets': map<nat, Bucket>, a: nat, b: Bucket)
    requires a in buckets && buckets' == buckets[a := b] && b.bits == buckets[a].bits
    ensures SameDepths(buckets, buckets')
  {
  }

  lemma DepthsBut(buckets: map<nat, Bucket>, buckets': map<nat, Bucket>, a: nat, b: Bucket, young: set<nat>)
    requires a in buckets && buckets' == buckets[a := b] && b.bits == buckets[a].bits
    ensures Depths(buckets' - young) == Depths(buckets - young)
  {
  }

  lemma SameCount(buckets: map<nat, Bucket>, buckets': map<nat, Bucket>, a: nat)
    requires a in buckets && a in buckets' && buckets' == buckets[a := buckets'[a]]
    ensures |buckets'| == |buckets|
  {
    assert buckets'.Keys == buckets.Keys;
    assert |buckets'| == |buckets'.Keys| && |buckets| == |buckets.Keys|;
  }

  /** The bucket of entry `i` has given way to two that are one bit deeper. */
  ghost predicate Parted(dir: seq<nat>, dirBits: nat, buckets: map<nat, Bucket>, i: nat, adr0: nat, adr1: nat,
                         dir': seq<nat>, buckets': map<nat, Bucket>) {
    && i < |dir| && |dir'| == |dir| && dir[i] in buckets && dir[i] !in {adr0, adr1} && adr0 != adr1
    && buckets[dir[i]].bits < dirBits && adr0 in buckets' && adr1 in buckets'
    && buckets' == (buckets - {dir[i]})[adr0 := buckets'[adr0]][adr1 := buckets'[adr1]]
    && buckets'[adr0].bits == buckets[dir[i]].bits + 1 && buckets'[adr1].bits == buckets[dir[i]].bits + 1
    && forall x :: 0 <= x < |dir'| ==> dir'[x] == ByNextBit(dir, i, dirBits - (buckets[dir[i]].bits + 1), adr0, adr1, x)
  }

  lemma PartedBy(dir: seq<nat>, dirBits: nat, buckets: map<nat, Bucket>, i: nat, adr0: nat, adr1: nat, dir': seq<nat>,
                 b0: Bucket, b1: Bucket)
    requires i < |dir| && |dir'| == |dir| && dir[i] in buckets && dir[i] !in {adr0, adr1} && adr0 != adr1
    requires b0.bits == b1.bits == buckets[dir[i]].bits + 1 <= dirBits
    requires forall x :: 0 <= x < |dir'| ==> dir'[x] == ByNextBit(dir, i, dirBits - b0.bits, adr0, adr1, x)
    ensures Parted(dir, dirBits, buckets, i, adr0, adr1, dir', (buckets - {dir[i]})[adr0 := b0][adr1 := b1])
  {
  }

  /** So has the shape. */
  lemma SplitShape(w: World, spare: Region, i: nat, adr0: nat, adr1: nat, dir': seq<nat>, buckets': map<nat, Bucket>,
                   hash: nat)
    requires w.Sound({adr0, adr1}, spare, {}) && hash < Pow2(HASH_BITS)
    requires Parted(w.dir, w.dirBits, w.buckets, i, adr0, adr1, dir', buckets')
    requires w.dir[i] == LookUp(w.dir, w.dirBits, hash)
    ensures ShapeOf(dir', w.dirBits, Depths(buckets')) ==
            Deepened(ShapeOf(w.dir, w.dirBits, Depths(w.buckets - {adr0, adr1})), hash)
  {
    hide Balanced, Recorded, Tabs, Catalog.Filled, BucketOk, Pow2, ByNextBit, LookUp, ShapeOf, Deepened;
    var cur, bits := w.dir[i], w.buckets[w.dir[i]].bits + 1;
    var depth := Depths(w.Content({adr0, adr1}).buckets);
    ShapeDivided(w.dir, w.dirBits, depth, dir', i, adr0, adr1, hash);
    assert Depths(buckets') == DividedDepth(depth, cur, bits, adr0, adr1);
  }

  /** The depth of the bucket of a hash, seen in the shape. */
  lemma SplitDepth(w: World, young: set<nat>, spare: Region, hash: nat)
    requires w.Sound(young, spare, {}) && hash < Pow2(HASH_BITS) && LookUp(w.dir, w.dirBits, hash) in w.buckets
    requires LookUp(w.dir, w.dirBits, hash) !in young
    ensures Depth(ShapeOf(w.dir, w.dirBits, Depths(w.buckets - young)), hash) ==
            w.buckets[LookUp(w.dir, w.dirBits, hash)].bits
  {
    hide Balanced, Recorded, Tabs, Catalog.Filled, BucketOk, Pow2, LookUp, ShapeOf, Depth, SharedRun;
    DepthOf(w.dir, w.dirBits, Depths(w.Content(young).buckets), hash);
  }

  lemma SameDepthsCount(buckets: map<nat, Bucket>, buckets': map<nat, Bucket>)
    requires Depths(buckets') == Depths(buckets)
    ensures |buckets'| == |buckets|
  {
    assert buckets'.Keys == Depths(buckets').Keys && buckets.Keys == Depths(buckets).Keys;
    assert |buckets'| == |buckets'.Keys| && |buckets| == |buckets.Keys|;
  }

  lemma DepthsMinus(buckets: map<nat, Bucket>, buckets': map<nat, Bucket>, a: nat)
    requires Depths(buckets') == Depths(buckets)
    ensures Depths(buckets' - {a}) == Depths(buckets - {a})
  {
    assert Depths(buckets' - {a}) == Depths(buckets') - {a};
    assert Depths(buckets - {a}) == Depths(buckets) - {a};
  }

  /** A new bucket has come, and the current one has changed its free table. */
  lemma PairDepths(buckets: map<nat, Bucket>, buckets': map<nat, Bucket>, cur: nat, adr: nat)
    requires cur in buckets && adr !in buckets && cur in buckets' && adr in buckets'
    requires buckets' == buckets[cur := buckets'[cur]][adr := buckets'[adr]] && buckets'[cur].bits == buckets[cur].bits
    ensures Depths(buckets' - {adr}) == Depths(buckets) && |buckets'| == |buckets| + 1
  {
    assert buckets'.Keys == buckets.Keys + {adr};
    assert |buckets'| == |buckets'.Keys| && |buckets| == |buckets.Keys|;
  }

  /** The number of keys in the bucket of a hash. */
  lemma SharedCount(w: World, spare: Region, hash: nat)
    requires w.Sound({}, spare, {}) && hash < Pow2(HASH_BITS)
    ensures var a := LookUp(w.dir, w.dirBits, hash);
            a in w.buckets && w.buckets[a].count == Sharing(w.data, hash, w.buckets[a].bits)
  {
    hide Balanced, Recorded, Tabs, Catalog.Ok, Pow2, LookUp, Sharing;
    assert w.buckets - {} == w.buckets;
    CountSharing(w.Content({}), w.slots, hash);
  }

  lemma AvailDepths(elems: Elements, elems': Elements, lru: seq<nat>, buckets: map<nat, Bucket>,
                    buckets': map<nat, Bucket>)
    requires CurrentAvailOnly(elems, elems', lru, buckets, buckets')
    requires elems[lru[0]].adr in buckets && elems[lru[0]].bucket == buckets[elems[lru[0]].adr]
    ensures SameDepths(buckets, buckets')
  {
  }

  /** The key a slot belongs to. */
  lemma SlotRecord(w: World, a: nat, i: nat) returns (k: Key)
    requires w.Sound({}, NOTHING, {}) && a in w.buckets && i < |w.buckets[a].table| && w.buckets[a].table[i].Elem?
    ensures k in w.data && k in w.loc && w.loc[k] == w.buckets[a].table[i] && Describes(w.loc[k], k, w.data[k])
    ensures w.Content({}).BucketOf(Hash(k)) == a
  {
    hide Recorded, Tabs, Balanced, Catalog.Shaped, Describes, Hash, LookUp;
    assert w.buckets - {} == w.buckets;
    k := SlotOwner(w.Content({}), a, w.buckets[a].table[i]);
  }

  lemma RecordInFile(w: World, k: Key)
    requires w.Sound({}, NOTHING, {}) && k in w.data && k in w.loc && Describes(w.loc[k], k, w.data[k])
    ensures var s := w.loc[k];
            && (s.keySize + s.dataSize == 0 || s.ptr + s.keySize + s.dataSize <= |w.file|)
            && RawBytes(Read(w.file, s.ptr, s.keySize + s.dataSize)) == k + w.data[k]
  {
    hide Tabs, Catalog.Ok, Hash;
    assert RecordOk(w.file, w.recs, w.data, w.loc, k);
    assert Given(w.own, w.recs[k], Record(k));
    RawRoundTrip(k + w.data[k]);
  }

  /** Slots belong to one key only. */
  lemma SameSlotKey(w: World, d: CachedData, t: seq<Slot>, k: Key)
    requires w.Sound({}, NOTHING, {}) && d.Data? && Matches(d, t, w.data, w.loc) && k in w.data && k in w.loc
    requires d.loc < |t| && t[d.loc] == w.loc[k]
    ensures d.bytes == k + w.data[k]
  {
    hide Recorded, Tabs, Balanced, Catalog.Shaped, Hash, Catalog.KeyPlaced, Catalog.SlotPlaced;
  }

  lemma HeadPair(elems: Elements, lru: seq<nat>, buckets: map<nat, Bucket>, data: map<Key, Value>, loc: map<Key, Slot>)
    requires Listed(elems, lru) && |lru| > 0 && PairsOk(elems, lru, buckets, data, loc, {})
    requires elems[lru[0]].adr in buckets
    ensures Matches(elems[lru[0]].data, buckets[elems[lru[0]].adr].table, data, loc)
  {
    hide Leading, Matches;
    FirstLeads(elems, lru, 0);
  }

  lemma PairSet(elems: Elements, lru: seq<nat>, buckets: map<nat, Bucket>, data: map<Key, Value>, loc: map<Key, Slot>,
                d: CachedData, k: Key)
    requires Listed(elems, lru) && |lru| > 0 && PairsOk(elems, lru, buckets, data, loc, {})
    requires elems[lru[0]].adr in buckets
    requires MatchesKey(d, buckets[elems[lru[0]].adr].table, data, loc, k)
    ensures Listed(elems[lru[0] := elems[lru[0]].(data := d)], lru)
    ensures PairsOk(elems[lru[0] := elems[lru[0]].(data := d)], lru, buckets, data, loc, {})
  {
    hide Leading, MatchesKey;
    forall x | x in elems
      ensures Leading(elems[lru[0] := elems[lru[0]].(data := d)], lru, x) == Leading(elems, lru, x)
    {
      SameLeading(elems, lru, lru[0], elems[lru[0]].(data := d), x);
    }
  }

  /** The validation of a bucket that has been read. */
  predicate BucketValid(b: Bucket, slots: nat, dirBits: nat, bucketSize: nat, nextBlock: nat) {
    b.count <= slots && b.bits <= dirBits && |b.avail| <= BUCKET_AVAIL && TableValid(b.avail, bucketSize, nextBlock)
  }

  /** It accepts a bucket exactly if its numbers are in range and all the bytes it lists as free lie
      behind the header and within the space in use. */
  lemma BucketBytes(b: Bucket, slots: nat, dirBits: nat, bucketSize: nat, nextBlock: nat)
    ensures BucketValid(b, slots, dirBits, bucketSize, nextBlock) <==>
            && b.count <= slots && b.bits <= dirBits && |b.avail| <= BUCKET_AVAIL
            && BytesWithin(b.avail, bucketSize, nextBlock)
  {
    hide TableValid, BytesWithin;
    TableBytes(b.avail, bucketSize, nextBlock);
  }

  lemma BucketPasses(w: World, a: nat)
    requires w.Sound({}, NOTHING, {}) && a in w.buckets && Painted(w.own, 0, w.size, FileHeader)
    ensures BucketValid(w.buckets[a], w.slots, w.dirBits, w.size, |w.own|)
  {
    hide Recorded, Catalog.Filled;
    assert w.buckets - {} == w.buckets;
    assert BucketOk(w.buckets[a], w.slots);
    hide Catalog.Ok;
    TableInBounds(w.own, w.buckets[a].avail, BucketTable(a), w.size);
  }

  /** Writing buckets disturbs nothing else. */
  lemma WritesKept(w: World, file': seq<Cell>, s: State, blockSize: nat, capacity: nat, young: set<nat>,
                   spare: Region, lost: set<Key>)
    requires w.Sound(young, spare, lost) && OnlyBuckets(w.own, w.file, file')
    requires SpaceOk(s, blockSize, capacity) && s.own == w.own && s.file == w.file && blockSize == w.size
    ensures w.(file := file').Sound(young, spare, lost) && |w.file| <= |file'|
    ensures SpaceOk(s.(file := file'), blockSize, capacity)
    ensures DirHeld(w.file, w.dirAdr, w.dir) ==> DirHeld(file', w.dirAdr, w.dir)
    ensures forall h :: HeaderHeld(w.file, h, w.size) ==> HeaderHeld(file', h, w.size)
  {
    hide World.Sound;
    BucketWrites(w.own, w.file, file');
    FileMoved(w, file', young, spare, lost);
    SpaceFileMoved(s, file', blockSize, capacity);
    DirFramed(w, file', young, spare, lost);
    HeaderFramed(w.own, w.file, file', w.size);
  }

  lemma AcquiredPairs(elems0: Elements, lru0: seq<nat>, elems: Elements, lru: seq<nat>, id: nat, isNew: bool,
                      buckets: map<nat, Bucket>, data: map<Key, Value>, loc: map<Key, Slot>)
    requires Listed(elems0, lru0) && Listed(elems, lru) && |lru| > 0 && lru[0] == id && Dirty(elems0) == {}
    requires PairsOk(elems0, lru0, buckets, data, loc, {})
    requires forall x :: x in elems && x != id ==> x in elems0 && SameOrWritten(elems0[x], elems[x])
    requires isNew ==> lru[1..] <= lru0 && id !in elems0 && elems[id].data == NoData && !elems[id].changed
    requires !isNew ==> id in elems0 && elems[id] == elems0[id] && Leading(elems0, lru0, id)
    requires !isNew ==> Unlinked(lru0, id, lru[1..])
    ensures PairsOk(elems, lru, buckets, data, loc, {}) && Dirty(elems) == {}
  {
    StillClean(elems0, elems, id);
    hide PairsOk, Leading, Distinct, Unlinked, IndexOf, Dirty;
    assert forall x :: x in elems && x != id ==> SameData(elems0[x], elems[x]);
    hide SameOrWritten;
    if isNew {
      assert lru0[0..] == lru0;
      assert Admitted(lru0, lru, 0, id);
      hide Admitted, Listed;
      PairsAdmitted(elems0, lru0, elems, lru, 0, id, buckets, data, loc, {});
    } else {
      FrontLinks(lru);
      hide LinkedAt, Listed;
      PairsPromoted(elems0, lru0, elems, lru, lru[1..], id, buckets, data, loc, {});
    }
  }

  lemma LoadedPairs(elems: Elements, lru: seq<nat>, elems': Elements, buckets: map<nat, Bucket>,
                    data: map<Key, Value>, loc: map<Key, Slot>)
    requires Listed(elems, lru) && Listed(elems', lru) && PairsOk(elems, lru, buckets, data, loc, {})
    requires |lru| > 0 && elems' == elems[lru[0] := elems[lru[0]].(bucket := elems'[lru[0]].bucket)]
    ensures PairsOk(elems', lru, buckets, data, loc, {}) && Dirty(elems') == Dirty(elems)
  {
    hide IndexOf, Matches;
    forall id | id in elems'
      ensures Leading(elems', lru, id) ==> Leading(elems, lru, id)
    {
    }
    assert forall id :: id in elems' <==> id in elems;
    assert forall id :: id in elems ==> elems'[id].changed == elems[id].changed;
  }

  lemma StillClean(elems0: Elements, elems: Elements, id: nat)
    requires Dirty(elems0) == {} && forall x :: x in elems && x != id ==>
              x in elems0 && SameOrWritten(elems0[x], elems[x])
    requires id in elems && (elems[id].changed ==> id in elems0 && elems0[id].changed)
    ensures Dirty(elems) == {}
  {
    assert forall x :: x in elems0 ==> x !in Dirty(elems0);
  }

  lemma SpareReserved(w: World, young: set<nat>, r: Region, lost: set<Key>)
    requires w.Sound(young, r, lost)
    ensures Painted(w.own, r.adr, r.len, Reserved)
  {
    hide Catalog.Ok, Recorded, Tabs;
  }

  lemma AvailNow(s: State, blockSize: nat, capacity: nat)
    requires s.Ok(blockSize, capacity)
    ensures TableOk(s.own, s.av, BucketTable(s.cur)) && |s.av| <= BUCKET_AVAIL
    ensures Painted(s.own, 0, blockSize, FileHeader)
  {
  }

  lemma SpaceKept(w: World, s: State, blockSize: nat, capacity: nat, young: set<nat>, spare: Region, lost: set<Key>)
    requires w.Sound(young, spare, lost) && s.Ok(blockSize, capacity) && s.own == w.own && blockSize > 0
    ensures s.(cur := 0, av := []).Ok(blockSize, capacity)
  {
    hide State.Ok, Balanced, Catalog.Ok, Recorded, Tabs;
    WithoutTable(s, blockSize, capacity, w.Account(), spare);
  }

  /** An allocation leaves buckets, the directory and the header alone. */
  ghost predicate OthersKept(own: seq<Owner>, own': seq<Owner>, f: seq<Cell>, f': seq<Cell>) {
    && |own| <= |own'| && |f| <= |f'|
    && (forall x :: 0 <= x < |own| && own[x].BucketAt? ==> own'[x] == own[x])
    && (forall x :: 0 <= x < |f| && x < |own| && (own[x].BucketAt? || own[x].Directory? || own[x].FileHeader?) ==>
          f'[x] == f[x])
  }

  lemma TakenBuckets(own: seq<Owner>, own': seq<Owner>, f: seq<Cell>, f': seq<Cell>, r: Region, cur: nat)
    requires Given(own', r, Reserved) && Frame(own, Paint(own', r.adr, r.len, Sliver), cur)
    requires FileFrame(own, f, f', cur)
    ensures OthersKept(own, own', f, f')
  {
    forall x | 0 <= x < |own| && own[x].BucketAt?
      ensures own'[x] == own[x]
    {
      assert Paint(own', r.adr, r.len, Sliver)[x] == own[x];
    }
  }

  lemma ReturnedBuckets(own: seq<Owner>, own': seq<Owner>, f: seq<Cell>, f': seq<Cell>, r: Region, cur: nat)
    requires Given(own, r, Reserved) && Frame(Paint(own, r.adr, r.len, Sliver), own', cur) && FileFrame(own, f, f', cur)
    ensures OthersKept(own, own', f, f')
  {
    forall x | 0 <= x < |own| && own[x].BucketAt?
      ensures own'[x] == own[x]
    {
      assert Paint(own, r.adr, r.len, Sliver)[x] == own[x];
    }
  }

  lemma KeptElsewhere(w: World, own': seq<Owner>, file': seq<Cell>, elems: Elements, open: set<nat>, young: set<nat>,
                      spare: Region, lost: set<Key>)
    requires w.Sound(young, spare, lost) && Allotted(w.own, w.buckets, w.size)
    requires Stored(w.file, elems, w.buckets, open, w.size)
    requires OthersKept(w.own, own', w.file, file') && Painted(w.own, 0, w.size, FileHeader)
    ensures Allotted(own', w.buckets, w.size) && Stored(file', elems, w.buckets, open, w.size) && |w.file| <= |file'|
    ensures forall a :: a in w.buckets ==> Painted(own', a, w.size, BucketAt(a))
    ensures DirHeld(w.file, w.dirAdr, w.dir) ==> DirHeld(file', w.dirAdr, w.dir)
    ensures forall h :: HeaderHeld(w.file, h, w.size) ==> HeaderHeld(file', h, w.size)
  {
    hide Catalog.Ok, Tabs, Recorded;
    AllottedFramed(w.own, own', w.buckets, w.size, 0);
    StoredFramed(w.own, w.file, file', elems, w.buckets, open, w.size);
    DirFramed(w, file', young, spare, lost);
    HeaderFramed(w.own, w.file, file', w.size);
  }

  /** Only the bucket and the flags of one element at `cur` change. */
  lemma PairsElsewhere(elems: Elements, elems': Elements, lru: seq<nat>, buckets: map<nat, Bucket>,
                       buckets': map<nat, Bucket>,
                       data: map<Key, Value>, loc: map<Key, Slot>, cur: nat)
    requires Listed(elems, lru) && Listed(elems', lru) && PairsOk(elems, lru, buckets, data, loc, {cur})
    requires forall id :: id in elems' ==> elems'[id].adr == elems[id].adr && elems'[id].data == elems[id].data
    requires forall a :: a in buckets' && a != cur ==> a in buckets && buckets'[a] == buckets[a]
    ensures PairsOk(elems', lru, buckets', data, loc, {cur})
  {
    hide IndexOf, Matches;
    forall id | id in elems'
      ensures Leading(elems', lru, id) ==> Leading(elems, lru, id)
    {
    }
  }

  /** Only the free table and the flag of the current bucket have changed. */
  ghost predicate CurrentAvailOnly(elems: Elements, elems': Elements, lru: seq<nat>, buckets: map<nat, Bucket>,
                                   buckets': map<nat, Bucket>) {
    && |lru| > 0 && lru[0] in elems && lru[0] in elems'
    && var e, e' := elems[lru[0]], elems'[lru[0]];
       && e' == e.(bucket := e.bucket.(avail := e'.bucket.avail), changed := e'.changed)
       && (e.changed ==> e'.changed)
       && elems' == elems[lru[0] := e'] && buckets' == buckets[e.adr := e'.bucket]
  }

  /** ftruncate to a larger size: zeros are added. */
  function Extend(f: seq<Cell>, n: nat): (g: seq<Cell>)
    ensures |g| == (if |f| < n then n else |f|) && f <= g && forall x :: 0 <= x < |f| ==> g[x] == f[x]
    ensures forall x :: |f| <= x < |g| ==> g[x] == Raw(0)
  {
    if |f| < n then f + seq(n - |f|, _ => Raw(0)) else f
  }

  lemma DirOwned(w: World)
    requires w.Sound({}, NOTHING, {})
    ensures Given(w.own, Region(w.dirAdr, |w.dir| * SIZEOF_OFF_T), Owner.Directory) && |w.dir| > 0
  {
    hide Recorded, Tabs;
    assert |w.dir| == Pow2(w.dirBits);
  }

  /** The current bucket is marked as changed, so it is no exception. */
  lemma ClosedByFlag(f: seq<Cell>, elems: Elements, buckets: map<nat, Bucket>, size: nat, id: nat)
    requires id in elems && elems[id].changed && Stored(f, elems, buckets, {elems[id].adr}, size)
    ensures Stored(f, elems, buckets, {}, size)
  {
    assert DirtyAt(elems, elems[id].adr);
  }

  lemma PairsFlushed(elems: Elements, lru: seq<nat>, n: nat, elems': Elements, buckets: map<nat, Bucket>,
                     data: map<Key, Value>, loc: map<Key, Slot>)
    requires Listed(elems, lru) && |lru| > 0 && elems[lru[0]].changed && n <= |lru|
    requires (n == |lru| || !elems[lru[n]].changed)
    requires elems' == Cleaned(elems, set i | 0 <= i < n :: lru[i]) && Listed(elems', lru)
    requires PairsOk(elems, lru, buckets, data, loc, {elems[lru[0]].adr})
    ensures PairsOk(elems', lru, buckets, data, loc, {})
  {
    IndexUnique(lru, 0);
    hide IndexOf, MatchesKey;
    assert n > 0;
    var written := set i | 0 <= i < n :: lru[i];
    assert lru[0] in written;
    forall id | id in elems && Leading(elems', lru, id)
      ensures Leading(elems, lru, id) && (elems[id].adr == elems[lru[0]].adr ==> id == lru[0])
    {
      CleanedSame(elems, lru, [], 0, written);
    }
  }

  /** Flagging the current bucket puts it at the head of the changed ones. */
  lemma FlaggedPrefix(elems: Elements, lru: seq<nat>, elems': Elements)
    requires Listed(elems, lru) && |lru| > 0 && PrefixOf(lru[1..], Dirty(elems))
    requires lru[0] in elems' && elems' == elems[lru[0] := elems'[lru[0]]] && elems'[lru[0]].changed
    ensures PrefixOf(lru, Dirty(elems'))
  {
    forall i, j | 0 <= i < j < |lru| && lru[j] in Dirty(elems')
      ensures lru[i] in Dirty(elems')
    {
      assert lru[1..][j - 1] == lru[j];
      if i > 0 {
        assert lru[1..][i - 1] == lru[i];
      }
    }
  }

  lemma HeadOnly(elems: Elements, lru: seq<nat>, elems': Elements, k: nat)
    requires Listed(elems, lru) && 0 < k <= |lru| && lru[0] in elems' && elems' == elems[lru[0] := elems'[lru[0]]]
    ensures PrefixOf(lru[k..], Dirty(elems)) ==> PrefixOf(lru[k..], Dirty(elems'))
  {
    forall i | 0 <= i < |lru[k..]|
      ensures lru[k..][i] in Dirty(elems') <==> lru[k..][i] in Dirty(elems)
    {
      assert lru[k..][i] == lru[i + k];
    }
  }

  lemma TailKept(elems: Elements, elems': Elements, lru: seq<nat>, k: nat, buckets: map<nat, Bucket>,
                 buckets': map<nat, Bucket>)
    requires Listed(elems, lru) && 0 < k <= |lru| && CurrentAvailOnly(elems, elems', lru, buckets, buckets')
    ensures PrefixOf(lru[k..], Dirty(elems)) ==> PrefixOf(lru[k..], Dirty(elems'))
  {
    HeadOnly(elems, lru, elems', k);
  }

  lemma PairDropped(elems: Elements, lru: seq<nat>, buckets: map<nat, Bucket>, data: map<Key, Value>,
                    loc: map<Key, Slot>, d: CachedData)
    requires Listed(elems, lru) && |lru| > 0 && PairsOk(elems, lru, buckets, data, loc, {elems[lru[0]].adr})
    ensures var elems' := elems[lru[0] := elems[lru[0]].(data := d)];
            Listed(elems', lru) && PairsOk(elems', lru, buckets, data, loc, {elems[lru[0]].adr})
  {
    hide Leading, Matches;
    forall x | x in elems
      ensures Leading(elems[lru[0] := elems[lru[0]].(data := d)], lru, x) == Leading(elems, lru, x)
    {
      SameLeading(elems, lru, lru[0], elems[lru[0]].(data := d), x);
    }
  }

  lemma RecordOwned(w: World, k: Key)
    requires w.Sound({}, NOTHING, {k}) && k in w.recs
    ensures Given(w.own, w.recs[k], Record(k))
  {
    hide Catalog.Ok, Tabs, Recorded;
  }

  /** Key and value are written one after the other. */
  lemma BothWritten(own: seq<Owner>, f: seq<Cell>, f': seq<Cell>, adr: nat, k: Key, v: Value)
    requires Given(own, Region(adr, |k| + |v|), Record(k))
    requires f' == Write(Write(f, adr, RawCells(k)), adr + |k|, RawCells(v))
    ensures OnlyOwner(own, f, f', Record(k)) && OnDisk(f', Region(adr, |k| + |v|), k + v)
  {
    if |k + v| > 0 {
      assert f'[adr..adr + |k| + |v|] == RawCells(k + v);
    }
  }

  lemma AvailOnlyRefl(elems: Elements, lru: seq<nat>, buckets: map<nat, Bucket>)
    requires |lru| > 0 && lru[0] in elems && elems[lru[0]].adr in buckets
    requires elems[lru[0]].bucket == buckets[elems[lru[0]].adr]
    ensures CurrentAvailOnly(elems, elems, lru, buckets, buckets)
  {
  }

  lemma AvailOnlyTrans(elems0: Elements, elems1: Elements, elems2: Elements, lru: seq<nat>, b0: map<nat, Bucket>,
                       b1: map<nat, Bucket>, b2: map<nat, Bucket>)
    requires CurrentAvailOnly(elems0, elems1, lru, b0, b1) && CurrentAvailOnly(elems1, elems2, lru, b1, b2)
    ensures CurrentAvailOnly(elems0, elems2, lru, b0, b2)
  {
  }

  lemma SameTable(elems: Elements, elems': Elements, lru: seq<nat>, buckets: map<nat, Bucket>,
                  buckets': map<nat, Bucket>)
    requires CurrentAvailOnly(elems, elems', lru, buckets, buckets')
    ensures elems'[lru[0]].adr == elems[lru[0]].adr && elems[lru[0]].adr in buckets'
    ensures buckets' == buckets[elems[lru[0]].adr := buckets'[elems[lru[0]].adr]]
    ensures var b, b' := elems[lru[0]].bucket, buckets'[elems[lru[0]].adr];
            b' == b.(avail := b'.avail) && elems'[lru[0]].bucket == b'
  {
  }

  lemma TableLength(b: Bucket, n: nat)
    requires BucketOk(b, n)
    ensures |b.table| == n && b.count <= n && (b.count == n <==> Empty !in b.table)
  {
    assert Empty in b.table <==> Empty in multiset(b.table);
  }

  /** A slot found in the current bucket is the key's own or nobody's. */
  lemma StoredBucket(w: World, cur: nat, k: Key, v: Value, slot: Slot, lost: set<Key>)
    requires w.Sound({}, NOTHING, lost) && lost <= {k} && cur in w.buckets && Describes(slot, k, v) && k in w.recs
    requires w.recs[k] == Extent(slot)
    ensures BucketOk(w.buckets[cur], w.slots) && |w.buckets[cur].table| == w.slots
    ensures slot in w.buckets[cur].table ==> k in w.loc && slot == w.loc[k]
  {
    SlotOwnKey(w, k, v, slot, lost);
    hide Balanced, Tabs, Recorded, Hash, LookUp, Describes, BucketOk, Catalog.KeyPlaced;
    assert w.buckets - {} == w.buckets;
    BucketShape(w.Content({}), w.slots, cur);
    TableLength(w.buckets[cur], w.slots);
    if slot in w.buckets[cur].table {
      assert w.Content({}).SlotPlaced(cur, slot);
    }
  }

  lemma NoSlot(w: World, k: Key)
    requires w.Sound({}, NOTHING, {k}) && k !in w.data
    ensures k !in w.loc
  {
    hide Balanced, Tabs, Recorded, Hash, LookUp, Catalog.Shaped, Catalog.KeyPlaced, Catalog.SlotPlaced;
  }

  ghost function Among(s: seq<nat>): set<nat> {
    set a | a in s
  }

  /** After the current bucket the list has the elements of newly made buckets. */
  ghost predicate Lineup(elems: Elements, lru: seq<nat>, buckets: map<nat, Bucket>, young: seq<nat>, b: Bucket) {
    && Listed(elems, lru) && |young| < |lru|
    && (forall q :: 0 <= q < |young| ==> elems[lru[q + 1]] == Element(young[q], false, NoData, b))
    && (forall q :: 0 <= q < |young| ==> young[q] in buckets && buckets[young[q]] == b)
  }

  lemma LineupMembers(elems: Elements, lru: seq<nat>, buckets: map<nat, Bucket>, young: seq<nat>, b: Bucket)
    requires Lineup(elems, lru, buckets, young, b)
    ensures forall a :: a in young ==> a in buckets
  {
  }

  lemma LineupKept(elems: Elements, elems': Elements, lru: seq<nat>, buckets: map<nat, Bucket>,
                   buckets': map<nat, Bucket>, young: seq<nat>, b: Bucket)
    requires Lineup(elems, lru, buckets, young, b) && CurrentAvailOnly(elems, elems', lru, buckets, buckets')
    requires elems[lru[0]].adr !in young
    ensures Lineup(elems', lru, buckets', young, b)
  {
    assert forall q :: 0 <= q < |young| ==> young[q] in young;
  }

  lemma LineupAcquired(elems0: Elements, lru0: seq<nat>, elems: Elements, lru: seq<nat>, buckets: map<nat, Bucket>,
                       young: seq<nat>, b: Bucket, id: nat)
    requires Lineup(elems0, lru0, buckets, young, b) && Listed(elems, lru) && |young| + 1 < |lru|
    requires lru[|young| + 1] == id && id !in elems0
    requires lru[..|young| + 1] == lru0[..|young| + 1]
    requires forall x :: x in elems && x != id ==> x in elems0 && SameOrWritten(elems0[x], elems[x])
    ensures Lineup(elems, lru, buckets, young, b) && lru[0] == lru0[0] && elems[lru[0]].adr == elems0[lru0[0]].adr
  {
    PrefixSame(lru0, lru, |young| + 1);
  }

  lemma PrefixSame(s: seq<nat>, t: seq<nat>, k: nat)
    requires k <= |s| && k <= |t| && s[..k] == t[..k]
    ensures forall q :: 0 <= q < k ==> s[q] == t[q]
  {
    assert forall q :: 0 <= q < k ==> s[q] == s[..k][q] && t[q] == t[..k][q];
  }

  lemma AfterPairs(elems0: Elements, lru0: seq<nat>, elems: Elements, lru: seq<nat>, i: nat, id: nat,
                   buckets: map<nat, Bucket>, data: map<Key, Value>, loc: map<Key, Slot>, open: set<nat>)
    requires Listed(elems0, lru0) && Listed(elems, lru) && Admitted(lru0, lru, i, id) && id !in elems0
    requires PairsOk(elems0, lru0, buckets, data, loc, open) && id in elems && elems[id].data == NoData
    requires forall x :: x in elems && x != id ==> x in elems0 && SameOrWritten(elems0[x], elems[x])
    ensures PairsOk(elems, lru, buckets, data, loc, open)
  {
    hide PairsOk, Leading, Distinct, Admitted;
    assert forall x :: x in elems && x != id ==> SameData(elems0[x], elems[x]);
    hide SameOrWritten;
    PairsAdmitted(elems0, lru0, elems, lru, i, id, buckets, data, loc, open);
  }

  lemma LineupLive(elems: Elements, lru: seq<nat>, buckets: map<nat, Bucket>, young: seq<nat>, b: Bucket)
    requires Lineup(elems, lru, buckets, young, b) && elems[lru[0]].adr in buckets
    ensures forall q :: 0 <= q <= |young| ==> elems[lru[q]].adr in buckets
  {
    forall q | 0 < q <= |young|
      ensures elems[lru[q]].adr in buckets
    {
      assert lru[(q - 1) + 1] == lru[q] && young[q - 1] in buckets;
    }
  }

  /** The element that follows is the first one with its address. */
  lemma LineupFirst(elems: Elements, lru: seq<nat>, buckets: map<nat, Bucket>, young: seq<nat>, b: Bucket, id: nat)
    requires Lineup(elems, lru, buckets, young, b) && elems[lru[0]].adr in buckets
    requires |young| + 1 < |lru| && lru[|young| + 1] == id && elems[id].adr !in buckets
    ensures First(elems, lru, |young| + 1)
  {
    LineupLive(elems, lru, buckets, young, b);
  }

  lemma FreshAddress(w: World, young: set<nat>, adr: nat)
    requires w.Sound(young, Region(adr, w.size), {})
    ensures adr !in w.buckets
  {
    hide Catalog.Ok, Tabs, Recorded;
    assert w.own[adr] == Reserved;
    assert adr in w.buckets ==> Given(w.own, Region(adr, w.size), BucketAt(adr));
  }

  /** A bucket with nothing cached enters the live ones. */
  lemma PairsEnrolled(elems: Elements, elems': Elements, lru: seq<nat>, k: nat, buckets: map<nat, Bucket>,
                      buckets': map<nat, Bucket>,
                      data: map<Key, Value>, loc: map<Key, Slot>, cur: nat)
    requires Listed(elems, lru) && Listed(elems', lru) && k < |lru| && First(elems, lru, k)
    requires PairsOk(elems, lru, buckets, data, loc, {cur})
    requires elems' == elems[lru[k] := elems'[lru[k]]] && elems'[lru[k]].adr == elems[lru[k]].adr
    requires elems'[lru[k]].data == NoData
    requires buckets' == buckets[elems[lru[k]].adr := elems'[lru[k]].bucket]
    ensures PairsOk(elems', lru, buckets', data, loc, {cur})
  {
    FirstLeads(elems, lru, k);
    IndexUnique(lru, k);
    hide IndexOf, MatchesKey, First;
    forall x | x in elems
      ensures Leading(elems', lru, x) == Leading(elems, lru, x)
      ensures Leading(elems, lru, x) && elems[x].adr == elems[lru[k]].adr ==> x == lru[k]
    {
      SameLeading(elems, lru, lru[k], elems'[lru[k]], x);
    }
    hide Leading;
  }

  lemma BigPowers()
    ensures Pow2(26) == 67108864 && Pow2(27) == 134217728
  {
    assert Pow2(8) == 256;
    Pow2Add(8, 8);
    Pow2Add(16, 8);
    assert Pow2(24) == 16777216;
  }

  /** The size check admits exactly the depths below the maximum. */
  lemma DirLimit(w: World, young: set<nat>, spare: Region)
    requires w.Sound(young, spare, {}) && w.dirBits <= MAX_DIR_BITS
    ensures |w.dir| * SIZEOF_OFF_T >= MAX_DIR_HALF <==> w.dirBits == MAX_DIR_BITS
  {
    hide Recorded, Tabs, Balanced, Catalog.Filled, BucketOk, SharedRun;
    assert |w.dir| == Pow2(w.dirBits);
    hide World.Sound;
    BigPowers();
    if w.dirBits < MAX_DIR_BITS {
      Pow2Monotonic(w.dirBits, 26);
    }
  }

  lemma GrownLookup(w: World, young: set<nat>, spare: Region, key: Key)
    requires w.Sound(young, spare, {}) && w.dirBits < HASH_BITS
    ensures LookUp(Doubled(w.dir), w.dirBits + 1, Hash(key)) == LookUp(w.dir, w.dirBits, Hash(key))
  {
    hide Recorded, Tabs, Balanced, Catalog.Filled, BucketOk, SharedRun, Pow2, Hash, Shr;
    assert |w.dir| == Pow2(w.dirBits);
    HashBound(key);
    DoubledLookup(w.dir, w.dirBits, Hash(key));
  }

  /** Exceptions that are no longer live do not matter. */
  lemma StoredWithout(f: seq<Cell>, elems: Elements, buckets: map<nat, Bucket>, open: set<nat>, open': set<nat>,
                      size: nat)
    requires Stored(f, elems, buckets, open, size) && forall a :: a in open ==> a !in buckets
    ensures Stored(f, elems, buckets, open', size)
  {
  }

  /** The list and the elements after the current one has been supplanted by the two behind it. */
  ghost predicate Supplanted(elems0: Elements, lru0: seq<nat>, elems: Elements, lru: seq<nat>) {
    && Listed(elems0, lru0) && Listed(elems, lru) && |lru0| > 2 && |lru| == |lru0| - 1
    && {lru[0], lru[1]} == {lru0[1], lru0[2]} && lru[2..] == lru0[3..]
    && (forall x :: x in elems ==> x in elems0 && elems[x].adr == elems0[x].adr)
    && (forall x :: x in elems && x != lru[0] && x != lru[1] ==> elems[x] == elems0[x])
    && elems[lru[0]].changed && elems[lru[1]].changed && elems[lru[0]].data == NoData && elems[lru[1]].data == NoData
  }

  lemma SupplantedPrefix(elems0: Elements, lru0: seq<nat>, elems: Elements, lru: seq<nat>)
    requires Supplanted(elems0, lru0, elems, lru) && PrefixOf(lru0[3..], Dirty(elems0))
    ensures PrefixOf(lru[1..], Dirty(elems))
  {
    forall i, j | 0 <= i < j < |lru[1..]| && lru[1..][j] in Dirty(elems)
      ensures lru[1..][i] in Dirty(elems)
    {
      assert lru[1..][i] == lru[i + 1] && lru[1..][j] == lru[j + 1] && lru[2..][j - 1] == lru[j + 1];
      assert lru0[3..][j - 1] == lru[j + 1];
      if i > 0 {
        assert lru[2..][i - 1] == lru[i + 1] && lru0[3..][i - 1] == lru[i + 1];
      }
    }
  }

  lemma SupplantedPairs(elems0: Elements, lru0: seq<nat>, elems: Elements, lru: seq<nat>, buckets0: map<nat, Bucket>,
                        buckets: map<nat, Bucket>,
                        data: map<Key, Value>, loc: map<Key, Slot>, cur: nat)
    requires Supplanted(elems0, lru0, elems, lru) && PairsOk(elems0, lru0, buckets0, data, loc, {elems0[lru0[0]].adr})
    requires elems0[lru0[0]].adr !in buckets && elems[lru[0]].adr != elems[lru[1]].adr
    requires forall a :: a in buckets && a != elems[lru[0]].adr && a != elems[lru[1]].adr ==>
              a in buckets0 && buckets[a] == buckets0[a]
    ensures PairsOk(elems, lru, buckets, data, loc, {cur})
  {
    hide MatchesKey, Leading, IndexOf, Listed, Distinct;
    forall id | id in elems && elems[id].adr in buckets && Leading(elems, lru, id)
      ensures Matches(elems[id].data, buckets[elems[id].adr].table, data, loc)
    {
      SupplantedLeader(elems0, lru0, elems, lru, id);
    }
  }

  lemma SupplantedLeader(elems0: Elements, lru0: seq<nat>, elems: Elements, lru: seq<nat>, id: nat)
    requires Supplanted(elems0, lru0, elems, lru) && id in elems && Leading(elems, lru, id)
    requires elems[lru[0]].adr != elems[lru[1]].adr
    requires elems[id].adr != elems0[lru0[0]].adr
    ensures id in {lru[0], lru[1]} ==> elems[id].data == NoData
    ensures id !in {lru[0], lru[1]} ==> elems[id].adr !in {elems[lru[0]].adr, elems[lru[1]].adr}
    ensures id !in {lru[0], lru[1]} ==> id in elems0 && elems0[id] == elems[id] && Leading(elems0, lru0, id)
  {
    if id !in {lru[0], lru[1]} {
      IndexUnique(lru, 0);
      IndexUnique(lru, 1);
      hide IndexOf;
      assert lru[IndexOf(lru, id)] == id;
      forall y | y in elems0 && y != id && elems0[y].adr == elems0[id].adr
        ensures IndexOf(lru0, id) < IndexOf(lru0, y)
      {
        SupplantedIndex(elems0, lru0, elems, lru, id);
        SupplantedIndex(elems0, lru0, elems, lru, y);
      }
    }
  }

  lemma SupplantedIndex(elems0: Elements, lru0: seq<nat>, elems: Elements, lru: seq<nat>, y: nat)
    requires Supplanted(elems0, lru0, elems, lru) && y in elems0 && y !in {lru0[0], lru0[1], lru0[2]}
    ensures y in elems && IndexOf(lru0, y) == IndexOf(lru, y) + 1
  {
    hide IndexOf;
    var q := IndexOf(lru0, y);
    assert lru0[3..][q - 3] == lru[2..][q - 3];
    IndexUnique(lru, q - 1);
  }

  lemma LineupPair(elems: Elements, lru: seq<nat>, buckets: map<nat, Bucket>, adr0: nat, adr1: nat, b: Bucket)
    requires Lineup(elems, lru, buckets, [adr0, adr1], b) && elems[lru[0]].adr !in {adr0, adr1} && adr0 != adr1
    ensures |lru| > 2 && elems[lru[1]] == Element(adr0, false, NoData, b)
    ensures elems[lru[2]] == Element(adr1, false, NoData, b)
    ensures adr0 in buckets && adr1 in buckets && buckets[adr0] == b && buckets[adr1] == b
    ensures First(elems, lru, 1) && First(elems, lru, 2)
  {
    var young := [adr0, adr1];
    assert young[0] == adr0 && young[1] == adr1 && lru[0 + 1] == lru[1] && lru[1 + 1] == lru[2];
  }

  lemma SplitStart(w: World, young: set<nat>, spare: Region, cur: nat, key: Key)
    requires w.Sound(young, spare, {}) && cur in w.buckets && Painted(w.own, 0, w.size, FileHeader)
    ensures cur > 0 && Tidy(w.buckets[cur].avail) && |w.buckets[cur].avail| <= BUCKET_AVAIL
    ensures |w.dir| == Pow2(w.dirBits)
    ensures Hash(key) < Pow2(HASH_BITS)
  {
    hide Recorded, Catalog.Filled, BucketOk, SharedRun, Pow2, Hash, Tidy, Claims;
    HashBound(key);
    assert |w.dir| == Pow2(w.dirBits);
    assert TableOk(w.own, w.buckets[cur].avail, BucketTable(cur));
    assert Given(w.own, Region(cur, w.size), BucketAt(cur));
    assert w.own[cur] == BucketAt(cur);
  }

  lemma LineupNone(elems: Elements, lru: seq<nat>, buckets: map<nat, Bucket>, b: Bucket)
    requires Listed(elems, lru) && |lru| > 0
    ensures Lineup(elems, lru, buckets, [], b)
  {
  }

  /** A full bucket of the greatest depth holds nothing but neighbours of the key. */
  lemma OverflowCrowded(w: World, young: set<nat>, spare: Region, cur: nat, key: Key)
    requires w.Sound(young, spare, {}) && cur in w.buckets && cur !in young
    requires cur == LookUp(w.dir, w.dirBits, Hash(key))
    requires w.dirBits == MAX_DIR_BITS && w.buckets[cur].bits == w.dirBits && w.buckets[cur].count == w.slots
    ensures Crowded(w.data, key, w.slots)
  {
    hide Balanced, Recorded, Tabs, Catalog.Filled, BucketOk, Pow2, Hash;
    var s := w.Content(young);
    assert cur in s.buckets;
    BucketKeys(s, w.slots, cur);
    forall k | k in KeysOf(s, cur)
      ensures Neighbours(k, key)
    {
      SameEntry(s, w.slots, cur, k, key);
    }
    var near := set k | k in w.data && Neighbours(k, key);
    assert KeysOf(s, cur) <= near;
    Subset(KeysOf(s, cur), near);
  }

  /** Two keys of a bucket as deep as the directory share the directory entry. */
  lemma SameEntry(s: Catalog, n: nat, cur: nat, k: Key, l: Key)
    requires s.Shaped(n) && cur in s.buckets && s.buckets[cur].bits == s.dirBits && s.dirBits == MAX_DIR_BITS
    requires s.BucketOf(Hash(k)) == cur && s.BucketOf(Hash(l)) == cur
    ensures Neighbours(k, l)
  {
    hide BucketOk, Pow2, Hash;
    HashBound(k);
    HashBound(l);
    BucketExists(s, n, Hash(k));
    BucketExists(s, n, Hash(l));
    var i, j := BucketDir(Hash(k), s.dirBits), BucketDir(Hash(l), s.dirBits);
    assert SharedRun(s.dir, s.dirBits, Depths(s.buckets), i, j);
    ShrZero(i);
    ShrZero(j);
  }

  lemma ShrZero(x: nat)
    ensures Shr(x, 0) == x
  {
    ShrInterval(x, 0, x);
    assert Pow2(0) == 1;
  }

  lemma Subset(a: set<Key>, b: set<Key>)
    requires a <= b
    ensures |a| <= |b|
  {
    assert b == a + (b - a);
  }

  /** A bucket with room shows that the key has too few neighbours to fill one. */
  lemma RoomNotCrowded(w: World, young: set<nat>, spare: Region, cur: nat, key: Key)
    requires w.Sound(young, spare, {}) && cur in w.buckets && cur !in young
    requires cur == LookUp(w.dir, w.dirBits, Hash(key))
    requires w.dirBits <= MAX_DIR_BITS && w.buckets[cur].count < w.slots
    ensures !Crowded(w.data, key, w.slots)
  {
    hide Balanced, Recorded, Tabs, Pow2, Hash, Catalog.Ok, Neighbours;
    var s := w.Content(young);
    assert cur in s.buckets;
    BucketKeys(s, w.slots, cur);
    var near := set k | k in w.data && Neighbours(k, key);
    forall k | k in near
      ensures k in KeysOf(s, cur)
    {
      NeighbourEntry(w.dir, w.dirBits, k, key);
    }
    Subset(near, KeysOf(s, cur));
  }

  lemma NeighbourEntry(dir: seq<nat>, dirBits: nat, k: Key, l: Key)
    requires Neighbours(k, l) && dirBits <= MAX_DIR_BITS
    ensures LookUp(dir, dirBits, Hash(k)) == LookUp(dir, dirBits, Hash(l))
  {
    hide Pow2, Hash;
    HashBound(k);
    HashBound(l);
    ShrShr(Hash(k), HASH_BITS - MAX_DIR_BITS, MAX_DIR_BITS - dirBits);
    ShrShr(Hash(l), HASH_BITS - MAX_DIR_BITS, MAX_DIR_BITS - dirBits);
  }

  lemma DepthBound(w: World, young: set<nat>, cur: nat)
    requires w.Sound(young, NOTHING, {}) && cur in w.buckets && cur !in young
    ensures w.buckets[cur].bits <= w.dirBits && w.buckets[cur].count <= w.slots
  {
    hide Balanced, Recorded, Tabs, Catalog.Filled, Pow2, SharedRun, Probeable;
    assert cur in w.buckets - young;
    assert BucketOk((w.buckets - young)[cur], w.slots);
    assert Depths(w.buckets - young)[cur] <= w.dirBits;
  }

  /** The old directories from number `index` on. */
  ghost function Numbered(dirs: seq<Region>, index: nat): map<nat, Region> {
    map i | index <= i < |dirs| :: dirs[i]
  }

  lemma NumberedNext(dirs: seq<Region>, r: Region)
    ensures Numbered(dirs + [r], 0) == Numbered(dirs, 0)[|dirs| := r]
  {
  }

  lemma NumberedRest(dirs: seq<Region>, index: nat)
    requires index < |dirs|
    ensures index in Numbered(dirs, index) && Numbered(dirs, index)[index] == dirs[index]
    ensures Numbered(dirs, index) - {index} == Numbered(dirs, index + 1)
  {
  }

  // ----- a new database -----

  /** The size of the extended header up to the entries of its free table. */
  const EXTENDED_AVAIL_TABLE_OFFSET: nat := 88

  function Min(a: nat, b: nat): nat {
    if a < b then a else b
  }

  /** compute_directory_size: the least power of two (at least 64) that covers the block size,
      which is cut down to what an int can address. */
  method ComputeDirectorySize(blockSize: nat) returns (dirSize: nat, dirBits: nat)
    ensures dirSize == SIZEOF_OFF_T * Pow2(dirBits) && 3 <= dirBits <= MAX_DIR_BITS
    ensures Min(blockSize, MAX_DIR_HALF) <= dirSize && (dirBits > 3 ==> dirSize / 2 < Min(blockSize, MAX_DIR_HALF))
    ensures DepthFor(blockSize, dirBits)
  {
    dirSize, dirBits := 8 * SIZEOF_OFF_T, 3;
    assert Pow2(3) == 8;
    BigPowers();
    var size := if blockSize > MAX_DIR_HALF then MAX_DIR_HALF else blockSize;
    while dirSize < size && dirBits < HASH_BITS - 3
      invariant dirSize == SIZEOF_OFF_T * Pow2(dirBits) && 3 <= dirBits <= MAX_DIR_BITS
      invariant dirBits > 3 ==> dirSize / 2 < size
    {
      Pow2Successor(dirBits);
      if dirBits == MAX_DIR_BITS {
        assert false;
      }
      dirSize, dirBits := dirSize * 2, dirBits + 1;
    }
  }

  /** The directory's depth for a block size: the least that covers it, between 3 and 27. */
  predicate DepthFor(blockSize: nat, bits: nat) {
    && 3 <= bits <= MAX_DIR_BITS && Min(blockSize, MAX_DIR_HALF) <= SIZEOF_OFF_T * Pow2(bits)
    && (bits > 3 ==> SIZEOF_OFF_T * Pow2(bits) / 2 < Min(blockSize, MAX_DIR_HALF))
  }

  lemma DepthUnique(blockSize: nat, a: nat, b: nat)
    requires DepthFor(blockSize, a) && DepthFor(blockSize, b)
    ensures a == b
  {
    hide Pow2;
    if a < b {
      Pow2Successor(b - 1);
      Pow2Monotonic(a, b - 1);
    } else if b < a {
      Pow2Successor(a - 1);
      Pow2Monotonic(b, a - 1);
    }
  }

  function FirstDirectory(bits: nat, adr: nat): (d: seq<nat>)
    ensures |d| == Pow2(bits) && forall i :: 0 <= i < |d| ==> d[i] == adr
  {
    seq(Pow2(bits), _ => adr)
  }

  /** bucket_element_count: as many as fit, one of them being part of the structure itself. */
  function ElementCount(bucketSize: nat): (n: nat)
    requires bucketSize >= SIZEOF_HASH_BUCKET
    ensures FillsBlock(SIZEOF_HASH_BUCKET - SIZEOF_BUCKET_ELEMENT, n, SIZEOF_BUCKET_ELEMENT, bucketSize)
  {
    (bucketSize - SIZEOF_HASH_BUCKET) / SIZEOF_BUCKET_ELEMENT + 1
  }

  /** A block holds `n` items of the given size after its first `start` bytes, and no more. */
  predicate FillsBlock(start: nat, n: nat, itemSize: nat, blockSize: nat) {
    start + n * itemSize <= blockSize < start + (n + 1) * itemSize
  }

  function AvailTableOffset(extended: bool): nat {
    if extended then EXTENDED_AVAIL_TABLE_OFFSET else AVAIL_TABLE_OFFSET
  }

  /** How the sizes of a database depend on its block size: buckets and header are filled up. */
  ghost predicate LaidOut(blockSize: nat, bits: nat, slots: nat, capacity: nat, extended: bool) {
    && blockSize >= MIN_BLOCK_SIZE && blockSize == SIZEOF_OFF_T * Pow2(bits) && bits >= 3
    && slots >= 16 && FillsBlock(SIZEOF_HASH_BUCKET - SIZEOF_BUCKET_ELEMENT, slots, SIZEOF_BUCKET_ELEMENT, blockSize)
    && (extended ==> FillsBlock(EXTENDED_AVAIL_TABLE_OFFSET, capacity, SIZEOF_AVAIL_ELEM, blockSize))
    && (!extended ==> FillsBlock(AVAIL_TABLE_OFFSET, capacity, SIZEOF_AVAIL_ELEM, blockSize))
  }

  /** The numbers a new database is laid out by. */
  method Geometry(blockSize: nat, statBlockSize: nat, numsync: bool) returns (dirSize: nat, bits: nat, slots: nat,
      capacity: nat)
    requires statBlockSize >= MIN_BLOCK_SIZE
    ensures dirSize >= MIN_BLOCK_SIZE && dirSize == SIZEOF_OFF_T * Pow2(bits) && bits <= MAX_DIR_BITS
    ensures LaidOut(dirSize, bits, slots, capacity, numsync) && capacity >= 26
    ensures blockSize >= MIN_BLOCK_SIZE ==> DepthFor(blockSize, bits)
    ensures blockSize < MIN_BLOCK_SIZE ==> DepthFor(statBlockSize, bits)
  {
    dirSize, bits := ComputeDirectorySize(if blockSize < MIN_BLOCK_SIZE then statBlockSize else blockSize);
    slots := ElementCount(dirSize);
    capacity := (dirSize - AvailTableOffset(numsync)) / SIZEOF_AVAIL_ELEM;
  }

  /** What gdbm_open writes to a new file: header, directory, first bucket, and room for a fourth block. */
  method FirstImage(n: nat, bits: nat, slots: nat, capacity: nat, numsync: bool) returns (d: seq<nat>, b: Bucket,
      file: seq<Cell>)
    requires n >= MIN_BLOCK_SIZE && n == SIZEOF_OFF_T * Pow2(bits)
    ensures d == FirstDirectory(bits, 2 * n) && b == NewBucket(0, slots).(avail := [Avail(n, 3 * n)])
    ensures |d| * SIZEOF_OFF_T == n
    ensures HeaderHeld(file, Header(numsync, n, n, n, bits, slots, 4 * n, AvailBlock(capacity, 0, [])), n)
    ensures |file| == 4 * n && DirHeld(file, n, d) && Holds(file, 2 * n, BucketCells(b, n))
  {
    d, b := FirstDirectory(bits, 2 * n), NewBucket(0, slots).(avail := [Avail(n, 3 * n)]);
    var h := Header(numsync, n, n, n, bits, slots, 4 * n, AvailBlock(capacity, 0, []));
    file := Write([], 0, ImageCells(HeaderImage(h), n));
    file := Write(file, n, ImageCells(DirImage(d), n));
    file := Write(file, 2 * n, ImageCells(BucketImage(b), n));
    file := Extend(file, 4 * n);
    FirstFile(h, d, b, n, file);
  }

  /** A cache with nothing in it agrees with any file that holds all buckets. */
  lemma EmptyCache(elems: Elements, lru: seq<nat>, table: seq<seq<nat>>, bits: nat, buckets: map<nat, Bucket>,
                   f: seq<Cell>, n: nat)
    requires elems == map[] && lru == [] && forall a :: a in buckets ==> Holds(f, a, BucketCells(buckets[a], n))
    ensures Listed(elems, lru) && Current(elems, lru, table, bits, buckets, {}) && Stored(f, elems, buckets, {}, n)
    ensures AllLinked(elems, table, bits) && LinkedLive(elems, table, bits, buckets, {}) && Dirty(elems) == {}
    ensures forall data, loc :: PairsOk(elems, lru, buckets, data, loc, {})
  {
  }

  /** Block by block, the file of a new database. */
  lemma FirstFile(h: Header, d: seq<nat>, b: Bucket, n: nat, file: seq<Cell>)
    requires n > 0 && |d| * SIZEOF_OFF_T == n && h.nextBlock == 4 * n
    requires file == Extend(Write(Write(Write([], 0, ImageCells(HeaderImage(h), n)), n, ImageCells(DirImage(d), n)),
              2 * n, ImageCells(BucketImage(b), n)), 4 * n)
    ensures HeaderHeld(file, h, n) && DirHeld(file, n, d) && Holds(file, 2 * n, BucketCells(b, n))
  {
    assert file[0..n] == ImageCells(HeaderImage(h), n);
    assert file[n..2 * n] == ImageCells(DirImage(d), n);
    assert file[2 * n..3 * n] == ImageCells(BucketImage(b), n);
  }

  /** Where directory, first bucket and its free space may be. */
  predicate FirstPlaces(n: nat, dir: nat, adr: nat, free: nat) {
    (dir == n && adr == 2 * n && free == 3 * n) || (dir == 3 * n && adr == n && free == 2 * n)
  }

  /** A database that consists of these four blocks is sound. */
  lemma FirstWorld(w: World, adr: nat, b: Bucket, free: nat)
    requires w.size >= MIN_BLOCK_SIZE && w.slots > 0 && FirstPlaces(w.size, w.dirAdr, adr, free)
    requires w.own == FirstOwners(w.size, w.dirAdr, adr) && w.buckets == map[adr := b]
    requires b == NewBucket(0, w.slots).(avail := [Avail(w.size, free)])
    requires w.dir == FirstDirectory(w.dirBits, adr) && w.dirBits <= MAX_DIR_BITS && |w.dir| * SIZEOF_OFF_T == w.size
    requires w.olds == map[] && w.recs == map[] && w.data == map[] && w.loc == map[]
    ensures w.Sound({}, NOTHING, {}) && Allotted(w.own, w.buckets, w.size)
  {
    hide Pow2, Shr;
    assert Balanced(w.own, w.Account(), NOTHING);
    FirstTable(w.own, w.size, w.dirAdr, adr, free);
    assert w.buckets - {} == w.buckets;
    FirstCatalog(w.Content({}), w.slots, adr, b);
  }

  lemma FirstTable(own: seq<Owner>, n: nat, dir: nat, adr: nat, free: nat)
    requires own == FirstOwners(n, dir, adr) && n >= MIN_BLOCK_SIZE && FirstPlaces(n, dir, adr, free)
    ensures TableOk(own, [Avail(n, free)], BucketTable(adr))
  {
    var t := [Avail(n, free)];
    assert forall x: nat :: Cover(t, x) == In(t[0], x) + Cover(t[1..], x);
  }

  lemma FirstDepths(bits: nat, adr: nat, b: Bucket)
    requires b.bits == 0
    ensures ShapeOf(FirstDirectory(bits, adr), bits, Depths(map[adr := b])) == FirstShape(bits)
  {
    hide Pow2;
    var depth := Depths(map[adr := b]);
    assert depth == map[adr := 0];
    assert EntryDepths(FirstDirectory(bits, adr), depth) == Zeros(Pow2(bits));
  }

  lemma FirstCatalog(s: Catalog, n: nat, adr: nat, b: Bucket)
    requires n > 0 && s.buckets == map[adr := b] && b.bits == 0 && b.count == 0 && b.table == EmptySlots(n)
    requires s.dir == FirstDirectory(s.dirBits, adr) && s.dirBits <= HASH_BITS && s.data == map[] && s.loc == map[]
    ensures s.Ok(n)
  {
    AllEmpty(b.table);
    forall i, j | 0 <= i < |s.dir| && 0 <= j < |s.dir|
      ensures SharedRun(s.dir, s.dirBits, Depths(s.buckets), i, j)
    {
      ShrBound(i, s.dirBits, 0);
      ShrBound(j, s.dirBits, 0);
    }
    assert s.dir[0] == adr;
  }

  /** The database with a new slot for a key that is there. */
  lemma SlotRenewed(w: World, cur: nat, key: Key, content: Value, elemLoc: nat, slot: Slot)
    requires w.Sound({}, NOTHING, {key}) && cur in w.buckets && cur == LookUp(w.dir, w.dirBits, Hash(key))
    requires key in w.data && key in w.loc && Describes(w.loc[key], key, w.data[key])
    requires elemLoc < |w.buckets[cur].table| && w.buckets[cur].table[elemLoc] == w.loc[key]
    requires slot.Elem? && slot == w.loc[key].(ptr := slot.ptr, keySize := |key|, dataSize := |content|)
    requires key in w.recs && w.recs[key] == Region(slot.ptr, |key| + |content|)
    ensures var b := w.buckets[cur].(table := w.buckets[cur].table[elemLoc := slot]);
            w.(buckets := w.buckets[cur := b], data := w.data[key := content], loc := w.loc[key := slot]).Sound({},
                NOTHING, {key})
    ensures SameBut(w.data, w.data[key := content], key) && SameBut(w.loc, w.loc[key := slot], key)
  {
    hide World.Sound, Hash, LookUp, BucketOk;
    var b := w.buckets[cur];
    StoredBucket(w, cur, key, content, slot, {key});
    SlotReplaced(b, w.slots, elemLoc, slot);
    KeyEntered(w, cur, key, content, slot, b.(table := b.table[elemLoc := slot]), {key});
  }

  class DatabaseFile {
    const space: FileSpace
    const cache: BucketCache
    const slots: nat             // bucket_elems
    const extended: bool         // the header has an extension, which counts synchronisations
    ghost const firstBits: nat   // depth of the directory the database started with
    ghost const short: bool      // the file was shorter than the space when it was opened

    var dirAdr: nat
    var dirBits: nat
    var dir: seq<nat>
    var bucketDir: nat
    var directoryChanged: bool
    var health: Health

    ghost var data: map<Key, Value>
    ghost var loc: map<Key, Slot>
    ghost var recs: map<Key, Region>
    ghost var olds: map<nat, Region>

    ghost function Now(): World
      reads this, space, cache
    {
      World(space.owner, space.file, space.blockSize, slots, dirAdr, olds, recs, cache.buckets, dir, dirBits, data, loc)
    }

    ghost predicate Wired()
      reads this`dirBits, cache
    {
      && cache.space == space && cache.bucketSize == space.blockSize
      && LaidOut(space.blockSize, firstBits, slots, space.capacity, extended) && firstBits <= dirBits <= MAX_DIR_BITS
      && (cache.relinked ==> cache.auto && cache.orphaned)
    }

    /** The invariant in the middle of an update of the current bucket. */
    ghost predicate Steady(young: set<nat>, spare: Region, lost: set<Key>)
      reads this, space, cache
    {
      && Wired() && cache.Shaped() && |cache.lru| > 0 && cache.Cur() in cache.buckets && cache.Cur() !in young
      && cache.Coherent({cache.Cur()} + young, {})
      && space.Valid(0, [])
      && Now().Sound(young, spare, lost)
      && PairsOk(cache.elems, cache.lru, cache.buckets, data, loc, {cache.Cur()})
    }

    /** The current bucket is the one of the key's hash. */
    ghost predicate Placed(key: Key)
      reads this`dir, this`dirBits, this`bucketDir, cache
    {
      && cache.Shaped() && |cache.lru| > 0 && cache.Cur() in cache.buckets
      && cache.Cur() == LookUp(dir, dirBits, Hash(key))
      && bucketDir < |dir| && dir[bucketDir] == cache.Cur()
    }

    /** The current bucket's table, as the program sees it. */
    ghost predicate Table(t: seq<Slot>)
      reads this, cache
    {
      && cache.Shaped() && |cache.lru| > 0 && cache.lru[0] in cache.elems && cache.Cur() in cache.buckets
      && cache.buckets[cache.Cur()].table == t && cache.elems[cache.lru[0]].bucket == cache.buckets[cache.Cur()]
    }

    /** The key's slot is at `elemLoc` of table `t`. */
    ghost predicate Located(key: Key, t: seq<Slot>, elemLoc: int)
      reads this
    {
      key in data && key in loc && 0 <= elemLoc < |t| && t[elemLoc] == loc[key]
    }

    ghost predicate DirWritten()
      reads this`directoryChanged, this`dirAdr, this`dir, space`file
    {
      directoryChanged || DirHeld(space.file, dirAdr, dir)
    }

    ghost function CurrentHeader(): Header
      reads this`dirAdr, this`dirBits, this`dir, space`nextBlock, space`availNext, space`avail
    {
      Header(extended, space.blockSize, dirAdr, |dir| * SIZEOF_OFF_T, dirBits, slots, space.nextBlock,
          AvailBlock(space.capacity, space.availNext, space.avail))
    }

    ghost predicate HeaderWritten()
      reads this`dirAdr, this`dirBits, this`dir
      reads space`file, space`headerChanged, space`nextBlock, space`availNext, space`avail
    {
      space.headerChanged || (HeaderHeld(space.file, CurrentHeader(),
          space.blockSize) && (short || space.nextBlock <= |space.file|))
    }

    /** gdbm_open creating a database with the given block size (the file system's, if that is
        too small), a standard or an extended header, and a cache of 2^cacheBits buckets. */
    constructor (blockSize: nat, statBlockSize: nat, numsync: bool, auto: bool, cacheBits: nat, coalesce: bool,
                 centralFree: bool)
      requires statBlockSize >= MIN_BLOCK_SIZE && 2 <= cacheBits <= HASH_BITS
      ensures fresh(space) && fresh(cache) && data == map[]
      ensures cache.auto == auto && !cache.orphaned && cache.bits == cacheBits
      ensures ShapeNow() == FirstShape(dirBits) && (blockSize >= MIN_BLOCK_SIZE ==> DepthFor(blockSize, dirBits))
      ensures blockSize < MIN_BLOCK_SIZE ==> DepthFor(statBlockSize, dirBits)
      ensures Blank() && extended == numsync && !short && dirAdr == space.blockSize
      ensures SIZEOF_OFF_T * Pow2(dirBits) == space.blockSize >= MIN_BLOCK_SIZE
      ensures LaidOut(space.blockSize, dirBits, slots, space.capacity, numsync) && slots >= 16
      ensures space.coalesce == coalesce && space.centralFree == centralFree
      ensures Valid()
    {
      hide State.Ok, Pow2, Chained, HeaderHeld, DirHeld, NewBucket, FirstDirectory, Listed, Holds, FirstOwners,
           BucketCells, FileSpace.Valid, Valid, LaidOut, DepthFor, FirstShape, ShapeOf;
      var dirSize, bits, n, capacity := Geometry(blockSize, statBlockSize, numsync);
      var d, b, file := FirstImage(dirSize, bits, n, capacity, numsync);
      var newSpace := new FileSpace(dirSize, capacity, coalesce, centralFree, file);
      var newCache := new BucketCache(newSpace, dirSize, auto, cacheBits);
      space, cache := newSpace, newCache;
      slots, extended, firstBits, short := n, numsync, bits, false;
      dirAdr, dirBits, dir, bucketDir, directoryChanged, health := dirSize, bits, d, 0, false, Good;
      data, loc, recs, olds := map[], map[], map[], map[];
      new;
      cache.buckets := map[2 * dirSize := b];
      FirstDepths(bits, 2 * dirSize, b);
      FourBlocks(2 * dirSize, b, 3 * dirSize);
    }

    /** Nothing is stored, cached, spilled or waiting to be written. */
    ghost predicate Blank()
      reads this, space, cache
    {
      && Wired() && health == Good && !directoryChanged && !space.headerChanged && firstBits == dirBits
      && space.avail == [] && space.availNext == 0 && space.stack == [] && space.slivers == [] && !space.pending
      && space.nextBlock == 4 * space.blockSize && |dir| * SIZEOF_OFF_T == space.blockSize && space.capacity >= 8
      && cache.Shaped() && cache.elems == map[] && cache.lru == [] && |dir| == Pow2(dirBits)
      && data == map[] && loc == map[] && recs == map[] && olds == map[]
    }

    /** A blank database of four blocks that are on disk satisfies the invariant. */
    lemma FourBlocks(adr: nat, b: Bucket, free: nat)
      requires Blank() && FirstPlaces(space.blockSize, dirAdr, adr, free)
      requires space.owner == FirstOwners(space.blockSize, dirAdr, adr)
      requires b == NewBucket(0, slots).(avail := [Avail(space.blockSize, free)]) && cache.buckets == map[adr := b]
      requires dir == FirstDirectory(dirBits, adr) && |space.file| == space.nextBlock && space.Valid(0, [])
      requires HeaderHeld(space.file, CurrentHeader(), space.blockSize) && DirHeld(space.file, dirAdr, dir)
      requires Holds(space.file, adr, BucketCells(b, space.blockSize))
      ensures Valid()
    {
      hide World.Sound, Pow2, Stored, Current, Allotted, AllLinked, LinkedLive, Chained, PairsOk, HeaderHeld, DirHeld,
           NewBucket, FirstDirectory, Listed, Holds, Settled, Dirty, FirstOwners, BucketCells, AdrHash,
           FileSpace.Valid;
      FirstWorld(Now(), adr, b, free);
      EmptyCache(cache.elems, cache.lru, cache.table, cache.bits, cache.buckets, space.file, space.blockSize);
    }

    /** A database that is opened again, with its header and directory read from the file. */
    constructor Existing(file: seq<Cell>, h: Header, d: seq<nat>, auto: bool, cacheBits: nat, coalesce: bool,
                         centralFree: bool, ghost was: DatabaseFile)
      requires was.Clonable() && file == was.space.file && h == was.CurrentHeader() && d == was.dir
      requires 2 <= cacheBits <= HASH_BITS
      ensures Valid() && fresh(space) && fresh(cache) && data == was.data
      ensures cache.auto == auto && !cache.orphaned && slots == was.slots && space.file == file
      ensures cache.bits == cacheBits && space.coalesce == coalesce && space.centralFree == centralFree
      ensures dir == was.dir && dirBits == was.dirBits && dirAdr == was.dirAdr && extended == was.extended
      ensures cache.buckets == was.cache.buckets
    {
      hide State.Ok, World.Sound, Pow2, Stored, Current, Allotted, AllLinked, LinkedLive, Chained, PairsOk,
           HeaderHeld, DirHeld, Listed, Holds, Settled, Dirty, BucketCells, AdrHash, LaidOut;
      var newSpace := new FileSpace.Existing(h.blockSize, h.avail.size, coalesce, centralFree, file, h.nextBlock,
          h.avail.table, h.avail.next, was.space);
      var newCache := new BucketCache(newSpace, h.blockSize, auto, cacheBits);
      space, cache := newSpace, newCache;
      slots, extended, firstBits, short := h.slots, h.extended, was.firstBits, |file| < h.nextBlock;
      dirAdr, dirBits, dir, bucketDir, directoryChanged, health := h.dirAdr, h.dirBits, d, 0, false, Good;
      data, loc, recs, olds := was.data, was.loc, was.recs, was.olds;
      new;
      cache.buckets := was.cache.buckets;
      CleanStored(was.space.file, was.cache.elems, was.cache.buckets, h.blockSize);
      EmptyCache(cache.elems, cache.lru, cache.table, cache.bits, cache.buckets, file, h.blockSize);
    }

    /** All buckets have been written; the elements in `raw` have not been filled in yet. */
    ghost predicate FlushedBut(raw: set<nat>)
      reads this, space, cache
    {
      && Wired() && health == Good
      && cache.Shaped() && cache.Coherent({}, raw) && Dirty(cache.elems) == {}
      && space.Valid(0, [])
      && Now().Sound({}, NOTHING, {}) && olds == map[] && recs.Keys == data.Keys
      && PairsOk(cache.elems, cache.lru, cache.buckets, data, loc, {})
      && DirWritten() && HeaderWritten()
    }

    ghost predicate Flushed()
      reads this, space, cache
    {
      FlushedBut({})
    }

    /** Everything but the length of the file is as the header says: so it is between operations,
        and when a snapshot is taken in the course of an update. */
    ghost predicate Clonable()
      reads this, space, cache
    {
      Flushed() && !directoryChanged && HeaderHeld(space.file, CurrentHeader(), space.blockSize)
    }

    /** The invariant between operations: nothing is left to be written. */
    ghost predicate Valid()
      reads this, space, cache
    {
      Flushed() && !directoryChanged && !space.headerChanged
    }

    /** _gdbm_get_bucket: the bucket of a directory entry becomes current. */
    method GetBucket(index: nat) returns (ok: bool)
      requires Valid() && index < |dir|
      modifies this`bucketDir, this`health, cache, space`file
      ensures cache.buckets == old(cache.buckets) && (old(cache.orphaned) ==> cache.orphaned)
      ensures ok ==> Valid() && health == Good && Here() && cache.Cur() == dir[index] && bucketDir == index
      ensures ok ==> cache.bits >= old(cache.bits)
      ensures !ok ==> health == Dead && cache.auto && old(cache.orphaned)
      ensures cache.auto && !old(cache.orphaned) ==> !cache.orphaned
    {
      hide State.Ok, World.Sound, Pow2, BucketCache.Coherent, FileSpace.Valid, PairsOk, DirHeld, HeaderHeld, DirOk;
      EntryFacts(index);
      if !(dir[index] >= space.blockSize) {
        assert false;
      }
      bucketDir := index;
      var rc, id := Arrive(index);
      if rc == Aborted {
        health := Dead;
        return false;
      }
      if rc == New {
        LoadCurrent(id);
      }
      return true;
    }

    lemma EntryFacts(index: nat)
      requires Valid() && index < |dir|
      ensures dir[index] >= space.blockSize && dir[index] in cache.buckets && dirBits <= HASH_BITS
      ensures |cache.buckets| <= Pow2(dirBits)
    {
      hide State.Ok, World.Sound, Pow2, BucketCache.Coherent, PairsOk, DirHeld, HeaderHeld, DirOk;
      AvailNow(space.Now(0, []), space.blockSize, space.capacity);
      DirEntry(Now(), index);
      FewBuckets(Now());
    }

    /** cache_lookup for the bucket of a directory entry. */
    method Arrive(index: nat) returns (rc: Outcome, id: nat)
      requires Valid() && index < |dir| && dir[index] in cache.buckets && dirBits <= HASH_BITS
      requires |cache.buckets| <= Pow2(dirBits)
      modifies cache, space`file
      ensures cache.buckets == old(cache.buckets) && (old(cache.orphaned) ==> cache.orphaned)
      ensures rc != Aborted ==> FlushedBut(if rc == New then {id} else {}) && cache.bits >= old(cache.bits)
      ensures rc != Aborted ==> |cache.lru| > 0 && cache.lru[0] == id && id in cache.elems
      ensures rc != Aborted ==> cache.elems[id].adr == dir[index]
      ensures rc == New ==> Holds(space.file, dir[index], BucketCells(cache.buckets[dir[index]], space.blockSize))
      ensures rc == Aborted ==> cache.auto && old(cache.orphaned)
      ensures cache.auto && !old(cache.orphaned) ==> !cache.orphaned
    {
      hide Listed, LaidOut, State.Ok, World.Sound, OnlyBuckets, Stored, Current, Allotted, Linked, AllLinked,
           LinkedLive, Leading, Chained, DirHeld, HeaderHeld, PairsOk, Settled, PrefixOf, InTable, Distinct, Vacant,
           Dirty, SameOrWritten, AdrHash, Pow2, Unlinked, BucketCache.StaleLink, DirOk, BucketCells;
      ghost var w := Now();
      AvailNow(space.Now(0, []), space.blockSize, space.capacity);
      NothingDirty(cache.lru);
      rc, id := cache.Acquire(dir[index], dirBits);
      if rc == Aborted {
        return;
      }
      WritesKept(w, space.file, space.Now(0, []).(file := w.file), space.blockSize, space.capacity, {}, NOTHING, {});
      AcquiredPairs(old(cache.elems), old(cache.lru), cache.elems, cache.lru, id, rc == New, w.buckets, data, loc);
    }

    /** The bucket is read from the file; the validation cannot fail. */
    method LoadCurrent(id: nat)
      requires |cache.lru| > 0 && cache.lru[0] == id && id in cache.elems && FlushedBut({id})
      requires cache.Cur() in cache.buckets
      requires Holds(space.file, cache.Cur(), BucketCells(cache.buckets[cache.Cur()], space.blockSize))
      modifies cache`elems
      ensures Flushed() && cache.Cur() == old(cache.Cur())
    {
      hide State.Ok, World.Sound, Stored, Current, Allotted, Linked, AllLinked, LinkedLive, Leading, Chained, DirHeld,
           HeaderHeld, PairsOk, Settled, Distinct, Dirty, AdrHash, Pow2, DirOk, BucketValid;
      var adr := cache.elems[id].adr;
      var image := ReadImage(space.file, adr, space.blockSize);
      assert image == Some(BucketImage(cache.buckets[adr]));
      var b := image.value.bucket;
      AvailNow(space.Now(0, []), space.blockSize, space.capacity);
      BucketPasses(Now(), adr);
      if !BucketValid(b, slots, dirBits, space.blockSize, space.nextBlock) {
        assert false;
      }
      cache.Load(b);
      LoadedPairs(old(cache.elems), cache.lru, cache.elems, cache.buckets, data, loc);
    }

    /** _gdbm_read_entry: the key and the value of a slot of the current bucket, read through the
        one-entry cache. */
    method ReadEntry(elemLoc: nat) returns (bytes: seq<byte>, ghost k: Key)
      requires Valid() && |cache.lru| > 0 && cache.Cur() in cache.buckets
      requires elemLoc < |cache.buckets[cache.Cur()].table| && cache.buckets[cache.Cur()].table[elemLoc].Elem?
      modifies cache`elems
      ensures Valid() && cache.Shaped() && cache.Cur() == old(cache.Cur())
      ensures k in data && k in loc && loc[k] == cache.buckets[cache.Cur()].table[elemLoc] && bytes == k + data[k]
      ensures Describes(loc[k], k, data[k])
    {
      hide State.Ok, World.Sound, Stored, Current, Allotted, Linked, AllLinked, LinkedLive, Leading, Chained, DirHeld,
           PairsOk, Settled, Distinct, Dirty, AdrHash, Pow2, Hash;
      ghost var cur := cache.Cur();
      var e := cache.elems[cache.lru[0]];
      HeadBucket();
      var s := e.bucket.table[elemLoc];
      k := SlotRecord(Now(), cur, elemLoc);
      if e.data.Data? && e.data.loc == elemLoc {
        HeadPair(cache.elems, cache.lru, cache.buckets, data, loc);
        SameSlotKey(Now(), e.data, e.bucket.table, k);
        return e.data.bytes, k;
      }
      RecordInFile(Now(), k);
      if !(s.keySize + s.dataSize == 0 || s.ptr + s.keySize + s.dataSize <= |space.file|) {
        assert false;
      }
      bytes := RawBytes(Read(space.file, s.ptr, s.keySize + s.dataSize));
      var d := Data(elemLoc, s.hash, s.keySize, s.dataSize, bytes);
      PairSet(cache.elems, cache.lru, cache.buckets, data, loc, d, k);
      cache.SetData(d, {});
    }

    /** _gdbm_findkey: where the key is in the current bucket, and its value; -1 if it is not there. */
    method FindKey(key: Key) returns (ok: bool, elemLoc: int, value: Value, ghost t: seq<Slot>)
      requires Valid()
      modifies this`bucketDir, this`health, cache, space`file
      ensures cache.buckets == old(cache.buckets) && (old(cache.orphaned) ==> cache.orphaned)
      ensures !ok ==> health == Dead && cache.auto && old(cache.orphaned)
      ensures cache.auto && !old(cache.orphaned) ==> !cache.orphaned
      ensures ok ==> cache.bits >= old(cache.bits)
      ensures ok ==> Valid() && health == Good && Placed(key) && Table(t)
      ensures ok ==> (elemLoc == -1 <==> key !in data)
      ensures ok && elemLoc != -1 ==> Located(key, t, elemLoc) && value == data[key]
    {
      hide Valid, Hash, Pow2, LookUp, Table, Listed, Chained, BucketDir;
      var hash := HashKey(key);
      HashBound(key);
      KeyEntry(key);
      var index := BucketDir(hash, dirBits);
      ok := GetBucket(index);
      if !ok {
        return false, -1, [], [];
      }
      t := CurrentTable();
      elemLoc, value := CachedKey(key, hash, t);
      if elemLoc == -1 {
        elemLoc, value := Probe(key, hash, t);
      }
    }

    lemma KeyEntry(key: Key)
      requires Valid()
      ensures dirBits <= HASH_BITS && BucketDir(Hash(key), dirBits) < |dir|
      ensures LookUp(dir, dirBits, Hash(key)) == dir[BucketDir(Hash(key), dirBits)]
      ensures LookUp(dir, dirBits, Hash(key)) in cache.buckets
    {
      hide State.Ok, Hash, Pow2, Recorded, Tabs, Balanced, Catalog.Filled, DirOk;
      HashBound(key);
      assert cache.buckets - {} == cache.buckets;
      BucketExists(Now().Content({}), slots, Hash(key));
    }

    lemma CurrentTable() returns (t: seq<Slot>)
      requires Valid() && cache.Shaped() && |cache.lru| > 0 && cache.Cur() in cache.buckets
      ensures Table(t) && |t| == slots && slots > 0 && Probeable(t)
    {
      hide State.Ok, Hash, Pow2, Recorded, Tabs, Balanced, Catalog.Filled, DirOk, Stored, Allotted, Linked, AllLinked,
           LinkedLive, Leading, Chained, PairsOk, DirHeld, HeaderHeld;
      HeadBucket();
      assert cache.buckets - {} == cache.buckets;
      t := cache.buckets[cache.Cur()].table;
    }

    /** The key/data pair read last from the current bucket, if it is the key's. */
    method CachedKey(key: Key, hash: nat, ghost t: seq<Slot>) returns (elemLoc: int, value: Value)
      requires Valid() && Table(t) && hash == Hash(key)
      ensures elemLoc == -1 || (Located(key, t, elemLoc) && value == data[key])
    {
      hide State.Ok, World.Sound, Stored, Current, Allotted, Linked, AllLinked, LinkedLive, Leading, Chained, DirHeld,
           HeaderHeld, PairsOk, Settled, Distinct, Dirty, AdrHash, Pow2, Hash;
      var d := cache.elems[cache.lru[0]].data;
      HeadPair(cache.elems, cache.lru, cache.buckets, data, loc);
      if d.Data? && d.hash == hash && d.keySize == |key| && d.bytes[..|key|] == key {
        ghost var k :| MatchesKey(d, t, data, loc, k);
        assert d.bytes[..|k|] == k && d.bytes[|k|..] == data[k];
        return d.loc, d.bytes[|key|..];
      }
      return -1, [];
    }

    /** The probe loop: hash, key size and the first bytes of the key are compared before the
        whole key is read. */
    method Probe(key: Key, hash: nat, ghost t: seq<Slot>) returns (elemLoc: int, value: Value)
      requires Valid() && Placed(key) && Table(t) && hash == Hash(key)
      modifies cache`elems
      ensures Valid() && Placed(key) && Table(t)
      ensures elemLoc == -1 <==> key !in data
      ensures elemLoc != -1 ==> Located(key, t, elemLoc) && value == data[key]
    {
      hide Valid, Hash, LookUp, Probeable, OnPath, Pow2, Listed, Chained;
      ghost var t0 := CurrentTable();
      var home := hash % slots;
      elemLoc := home;
      ghost var steps := 0;
      while cache.elems[cache.lru[0]].bucket.table[elemLoc].Elem?
        invariant 0 <= elemLoc < slots && slots == |t| && steps == Dist(home, elemLoc, slots)
        invariant Valid() && Placed(key) && Table(t)
        invariant forall x :: 0 <= x < slots && Dist(home, x, slots) < steps ==>
                  t[x].Elem? && (key in loc ==> t[x] != loc[key])
        decreases slots - steps
      {
        var hit;
        hit, value := Compare(key, hash, elemLoc, t);
        if hit {
          return;
        }
        elemLoc := Next(elemLoc, slots);
        steps := steps + 1;
        if elemLoc == home {
          break;
        }
      }
      NotProbed(key, t, home, steps, elemLoc);
      return -1, [];
    }

    /** Whether a slot is the key's. */
    method Compare(key: Key, hash: nat, elemLoc: nat, ghost t: seq<Slot>) returns (hit: bool, value: Value)
      requires Valid() && Placed(key) && Table(t) && hash == Hash(key) && elemLoc < |t| && t[elemLoc].Elem?
      modifies cache`elems
      ensures Valid() && Placed(key) && Table(t)
      ensures hit <==> Located(key, t, elemLoc)
      ensures hit ==> value == data[key]
      ensures !hit && key in loc ==> t[elemLoc] != loc[key]
    {
      hide Valid, Hash, LookUp, Pow2, Listed, Chained;
      var s := cache.elems[cache.lru[0]].bucket.table[elemLoc];
      KeySlot(key, t);
      if s.hash == hash && s.keySize == |key| && s.keyStart == Prefix(key) {
        var bytes;
        ghost var k;
        bytes, k := ReadEntry(elemLoc);
        HeadBucket();
        assert bytes[..|k|] == k && bytes[|k|..] == data[k];
        if bytes[..s.keySize] == key {
          return true, bytes[|key|..];
        }
        SlotsDiffer(k, key);
      }
      return false, [];
    }

    /** Probing has ended without meeting the key. */
    lemma NotProbed(key: Key, t: seq<Slot>, home: nat, steps: nat, p: nat)
      requires Valid() && Placed(key) && Table(t) && |t| == slots && slots > 0 && home == Hash(key) % slots && p < slots
      requires forall x :: 0 <= x < slots && Dist(home, x, slots) < steps ==>
                t[x].Elem? && (key in loc ==> t[x] != loc[key])
      requires if t[p].Empty? then steps == Dist(home, p, slots) else steps == slots
      ensures key !in data
    {
      hide Valid, Hash, LookUp, Pow2, Listed, Chained, Probeable;
      KeySlot(key, t);
      ghost var t0 := CurrentTable();
      if key in data {
        var j :| 0 <= j < |t| && t[j] == loc[key];
        ReachableAt(t, j);
      }
    }

    lemma SlotsDiffer(k: Key, l: Key)
      requires Valid() && k != l && k in loc
      ensures l in loc ==> loc[k] != loc[l]
    {
      hide State.Ok, Hash, Pow2, Recorded, Tabs, Balanced, Catalog.Shaped, Describes, LookUp, Catalog.SlotPlaced,
           Catalog.KeyPlaced, Listed, Chained;
    }

    /** What is known about the slot of a key. */
    lemma KeySlot(key: Key, t: seq<Slot>)
      requires Valid() && Placed(key) && Table(t)
      ensures key in data ==> key in loc && Describes(loc[key], key, data[key]) && loc[key] in t
      ensures key in loc ==> key in data
    {
      hide State.Ok, Hash, Pow2, Recorded, Tabs, Balanced, Catalog.Shaped, Describes, LookUp, Catalog.SlotPlaced,
           Listed, Chained;
      assert cache.buckets - {} == cache.buckets;
      if key in data {
        assert Now().Content({}).KeyPlaced(key);
      }
    }

    /** Depths and number of the buckets as they are now. */
    ghost function ShapeNow(): Shape
      reads this`dir, this`dirBits, cache
    {
      ShapeOf(dir, dirBits, Depths(cache.buckets))
    }

    /** The same without the buckets a split has just made. */
    ghost function ShapeBut(adr0: nat, adr1: nat): Shape
      reads this`dir, this`dirBits, cache
    {
      ShapeOf(dir, dirBits, Depths(cache.buckets - {adr0, adr1}))
    }

    /** Directory, buckets and contents as they are now. */
    ghost function Cat(): Catalog
      reads this, cache
    {
      Catalog(dir, dirBits, cache.buckets, data, loc)
    }

    lemma CatOk()
      requires Valid()
      ensures Cat().Ok(slots) && slots > 0 && |dir| > 0 && dirBits <= MAX_DIR_BITS && |dir| == Pow2(dirBits)
    {
      hide State.Ok, Balanced, Tabs, Recorded, PairsOk, Catalog.Filled, BucketOk, SharedRun;
      assert cache.buckets - {} == cache.buckets;
      assert |dir| == Pow2(dirBits);
    }

    /** The current bucket is the one of directory entry `bucketDir`. */
    ghost predicate Here()
      reads this, cache
    {
      cache.Shaped() && |cache.lru| > 0 && cache.Cur() in cache.buckets && bucketDir < |dir|
          && dir[bucketDir] == cache.Cur()
    }

    /** A key found in the current bucket belongs there. */
    lemma OwnEntry(t: seq<Slot>, k: Key)
      requires Valid() && Here() && Table(t) && k in data && k in loc && loc[k] in t
      ensures LookUp(dir, dirBits, Hash(k)) == cache.Cur() && cache.Cur() >= space.blockSize
    {
      hide State.Ok, World.Sound, Stored, Current, Allotted, Linked, AllLinked, LinkedLive, Leading, Chained, PairsOk,
           DirHeld, HeaderHeld, Hash, LookUp;
      OwnBucket(Now(), cache.Cur(), k, {});
      AvailNow(space.Now(0, []), space.blockSize, space.capacity);
      DirEntry(Now(), bucketDir);
    }

    lemma CountBound()
      requires Valid() && Here()
      ensures cache.lru[0] in cache.elems && cache.elems[cache.lru[0]].bucket.count <= slots
    {
      hide State.Ok, World.Sound, Stored, Current, Allotted, Linked, AllLinked, LinkedLive, Leading, Chained, PairsOk,
           DirHeld, HeaderHeld;
      HeadBucket();
      DepthBound(Now(), {}, cache.Cur());
    }

    /** What the file holds between operations. */
    lemma FileFacts()
      requires Clonable()
      ensures |space.file| <= space.nextBlock && (short || space.headerChanged || |space.file| == space.nextBlock)
      ensures dirAdr > 0 && dirAdr < |space.file| && |space.avail| <= space.capacity
      ensures HeaderHeld(space.file, CurrentHeader(), space.blockSize) && DirHeld(space.file, dirAdr, dir)
      ensures TableValid(space.avail, space.blockSize, space.nextBlock)
      ensures LaidOut(space.blockSize, firstBits, slots, space.capacity, extended)
      ensures firstBits <= dirBits <= MAX_DIR_BITS
      ensures |dir| == Pow2(dirBits) && space.blockSize >= MIN_BLOCK_SIZE
    {
      hide Stored, Current, Allotted, Linked, AllLinked, LinkedLive, Leading, Chained, PairsOk, StackOk, NoStray,
           Tabs, Recorded, Catalog.Filled, SharedRun, BucketOk;
      var own := space.owner;
      TableInBounds(own, space.avail, HeaderTable, space.blockSize);
      assert |dir| == Pow2(dirBits);
      assert Given(own, Now().Account().dir, Owner.Directory);
      assert own[dirAdr] == Owner.Directory && own[0] == FileHeader;
    }

    method SetBucketDir(i: nat)
      requires Valid()
      modifies this`bucketDir
      ensures Valid() && bucketDir == i
    {
      hide State.Ok, World.Sound, Stored, Current, Allotted, Linked, AllLinked, LinkedLive, Leading, Chained, PairsOk,
           DirHeld, HeaderHeld;
      bucketDir := i;
    }

    lemma CanBeCloned()
      requires Valid()
      ensures Clonable()
    {
    }

    lemma Healthy()
      requires Valid()
      ensures health == Good
    {
    }

    lemma HeadBucket()
      requires Valid() && |cache.lru| > 0 && cache.Cur() in cache.buckets
      ensures cache.lru[0] in cache.elems && cache.elems[cache.lru[0]].bucket == cache.buckets[cache.Cur()]
    {
      hide State.Ok, World.Sound, Stored, Allotted, Linked, AllLinked, LinkedLive, Leading, Chained, PairsOk, DirHeld,
           HeaderHeld;
      FirstLeads(cache.elems, cache.lru, 0);
    }

    /** _gdbm_alloc on behalf of the current bucket. */
    method AllocCurrent(n: nat, ghost young: set<nat>, ghost lost: set<Key>) returns (adr: nat)
      requires Steady(young, NOTHING, lost)
      modifies space, cache`elems, cache`buckets
      ensures Steady(young, Region(adr, n), lost) && adr > 0
      ensures CurrentAvailOnly(old(cache.elems), cache.elems, cache.lru, old(cache.buckets), cache.buckets)
      ensures old(DirWritten()) ==> DirWritten()
      ensures old(HeaderWritten()) ==> HeaderWritten()
    {
      hide State.Ok, World.Sound, Frame, FileFrame, NothingDropped, Painted, Stored, Current, Allotted, Linked,
           AllLinked, LinkedLive, Leading, Chained, DirHeld, HeaderHeld, PairsOk, Settled, Distinct;
      ghost var w := Now();
      var b := cache.elems[cache.lru[0]].bucket;
      CurrentBucket(young, NOTHING, lost);
      ghost var cur, open := cache.Cur(), {cache.Cur()} + young;
      var av, changed;
      ghost var overflow, table;
      AvailNow(space.Now(0, []), space.blockSize, space.capacity);
      SpaceFor(w, space.Now(0, []), space.blockSize, space.capacity, cur, young, NOTHING, lost);
      adr, av, changed, overflow, table := space.Allocate(cur, b.avail, n);
      ghost var r := Region(adr, n);
      AvailNow(space.Now(cur, av), space.blockSize, space.capacity);
      SpaceTaken(w, space.owner, space.file, cur, av, r, young, lost);
      SpaceKept(w.(own := space.owner, file := space.file, buckets := w.buckets[cur := b.(avail := av)]),
          space.Now(cur, av), space.blockSize, space.capacity, young, r, lost);
      TakenBuckets(w.own, space.owner, w.file, space.file, r, cur);
      KeptElsewhere(w, space.owner, space.file, cache.elems, open, young, NOTHING, lost);
      cache.Fill(0, b.(avail := av), changed, open, {});
      assert open + {cur} == open;
      PairsElsewhere(old(cache.elems), cache.elems, cache.lru, old(cache.buckets), cache.buckets, data, loc, cur);
    }

    /** _gdbm_free on behalf of the current bucket. */
    method ReleaseCurrent(adr: nat, n: nat, ghost young: set<nat>, ghost lost: set<Key>)
      requires Steady(young, Region(adr, n), lost)
      modifies space, cache`elems, cache`buckets
      ensures Steady(young, NOTHING, lost)
      ensures CurrentAvailOnly(old(cache.elems), cache.elems, cache.lru, old(cache.buckets), cache.buckets)
      ensures old(DirWritten()) ==> DirWritten()
      ensures old(HeaderWritten()) ==> HeaderWritten()
    {
      hide State.Ok, World.Sound, Frame, FileFrame, NothingDropped, Painted, Stored, Current, Allotted, Linked,
           AllLinked, LinkedLive, Leading, Chained, DirHeld, HeaderHeld, PairsOk, Settled, Distinct;
      ghost var w, r := Now(), Region(adr, n);
      var b := cache.elems[cache.lru[0]].bucket;
      CurrentBucket(young, r, lost);
      ghost var cur, open := cache.Cur(), {cache.Cur()} + young;
      SpareReserved(w, young, r, lost);
      AvailNow(space.Now(0, []), space.blockSize, space.capacity);
      SpaceFor(w, space.Now(0, []), space.blockSize, space.capacity, cur, young, r, lost);
      var av, changed := space.Release(cur, b.avail, adr, n);
      AvailNow(space.Now(cur, av), space.blockSize, space.capacity);
      SpaceReturned(w, space.owner, space.file, cur, av, r, young, lost);
      SpaceKept(w.(own := space.owner, file := space.file, buckets := w.buckets[cur := b.(avail := av)]),
          space.Now(cur, av), space.blockSize, space.capacity, young, NOTHING, lost);
      ReturnedBuckets(w.own, space.owner, w.file, space.file, r, cur);
      KeptElsewhere(w, space.owner, space.file, cache.elems, open, young, r, lost);
      cache.Fill(0, b.(avail := av), changed, open, {});
      assert open + {cur} == open;
      PairsElsewhere(old(cache.elems), cache.elems, cache.lru, old(cache.buckets), cache.buckets, data, loc, cur);
    }

    /** Bytes change hands outside the allocator. */
    ghost method Reown(own: seq<Owner>, open: set<nat>, raw: set<nat>)
      requires cache.space == space && cache.Shaped() && cache.Coherent(open, raw) && space.Valid(0, [])
      requires OutsideOnly(space.owner, own) && Allotted(own, cache.buckets, cache.bucketSize)
      modifies space`owner
      ensures space.owner == own && cache.Coherent(open, raw) && space.Valid(0, [])
    {
      hide StackOk, NoStray, TableOk, Claims, Stored, Current, Allotted, Linked, AllLinked, LinkedLive, Leading,
           Listed, Chained, Settled, Distinct, Pow2, Painted;
      OutsideMoved(space.Now(0, []), own, space.blockSize, space.capacity);
      space.owner := own;
    }

    /** The spare region is put to use as the record of `k`. */
    ghost method GrantRecord(k: Key, young: set<nat>, r: Region, lost: set<Key>)
      requires Steady(young, r, lost) && k !in recs && (k in data ==> k in lost)
      modifies this`recs, space`owner
      ensures Steady(young, NOTHING, lost) && recs == old(recs)[k := r]
    {
      hide State.Ok, World.Sound, Painted, Stored, Current, Allotted, Linked, AllLinked, LinkedLive, Leading, Chained,
           PairsOk, Settled, Distinct;
      RecordReceived(Now(), young, r, lost, k);
      space.owner := Paint(space.owner, r.adr, r.len, Record(k));
      OutsideMoved(space.Now(0, []).(own := old(space.owner)), space.owner, space.blockSize, space.capacity);
      recs := recs[k := r];
    }

    /** The record of `k` is about to be released. */
    ghost method GiveUpRecord(k: Key, young: set<nat>, lost: set<Key>)
      requires Steady(young, NOTHING, lost) && k in recs
      modifies this`recs, space`owner
      ensures Steady(young, old(recs)[k], lost + {k}) && recs == old(recs) - {k}
    {
      hide State.Ok, World.Sound, Painted, Stored, Current, Allotted, Linked, AllLinked, LinkedLive, Leading, Chained,
           PairsOk, Settled, Distinct;
      ghost var r := recs[k];
      RecordGivenUp(Now(), young, lost, k);
      space.owner := Paint(space.owner, r.adr, r.len, Reserved);
      OutsideMoved(space.Now(0, []).(own := old(space.owner)), space.owner, space.blockSize, space.capacity);
      recs := recs - {k};
    }

    /** The current bucket's contents change. */
    method UpdateCurrent(b: Bucket, changed: bool, ghost key: Key, ghost newData: map<Key, Value>,
                         ghost newLoc: map<Key, Slot>, ghost lost: set<Key>)
      requires Steady({}, NOTHING, lost) && cache.Cur() == LookUp(dir, dirBits, Hash(key))
      requires SameBut(data, newData, key) && SameBut(loc, newLoc, key)
      requires Now().(buckets := cache.buckets[cache.Cur() := b], data := newData, loc := newLoc).Sound({}, NOTHING,
                lost)
      modifies this`data, this`loc, cache`elems, cache`buckets
      ensures Steady({}, NOTHING, lost) && data == newData && loc == newLoc
      ensures cache.buckets == old(cache.buckets)[old(cache.Cur()) := b]
      ensures var e := old(cache.elems)[cache.lru[0]];
              cache.elems == old(cache.elems)[cache.lru[0] := e.(bucket := b, changed := e.changed || changed)]
    {
      hide World.Sound, Painted, BucketCache.Coherent, FileSpace.Valid, PairsOk, Listed, Hash, LookUp, SameBut,
           Chained, LaidOut, Pow2;
      HeadSame({}, NOTHING, lost);
      HeadPainted({}, NOTHING, lost);
      ghost var cur := cache.Cur();
      assert {cur} + {} == {cur} && {cur} + {cur} == {cur};
      PairsRekeyed(Now(), cache.elems, cache.lru, cur, key, newData, newLoc, lost);
      cache.Fill(0, b, changed, {cur}, {});
      data, loc := newData, newLoc;
      PairsElsewhere(old(cache.elems), cache.elems, cache.lru, old(cache.buckets), cache.buckets, data, loc, cur);
    }

    /** _gdbm_current_bucket_changed, then _gdbm_end_update. */
    method Finish()
      requires Steady({}, NOTHING, {}) && PrefixOf(cache.lru[1..], Dirty(cache.elems))
      requires health == Good && olds == map[] && recs.Keys == data.Keys && DirWritten() && HeaderWritten()
      modifies this`directoryChanged, cache`elems, cache`buckets, space`file, space`headerChanged
      ensures Valid() && cache.buckets == old(cache.buckets)
    {
      hide State.Ok, World.Sound, Painted, Stored, Current, Linked, AllLinked, LinkedLive, Leading, Chained, DirHeld,
           HeaderHeld, PairsOk, Settled, Distinct, PrefixOf, Dirty, Valid;
      CurrentBucket({}, NOTHING, {});
      ghost var cur := cache.Cur();
      assert {cur} + {} == {cur} && {cur} + {cur} == {cur};
      var b := cache.elems[cache.lru[0]].bucket;
      cache.Fill(0, b, true, {cur}, {});
      assert cache.buckets == old(cache.buckets);
      PairsElsewhere(old(cache.elems), cache.elems, cache.lru, old(cache.buckets), cache.buckets, data, loc, cur);
      FlaggedPrefix(old(cache.elems), cache.lru, cache.elems);
      EndUpdate();
    }

    /** gdbm_fetch */
    method Fetch(key: Key) returns (r: Option<Value>)
      requires health != Dead && (health == Good ==> Valid())
      modifies this`bucketDir, this`health, cache, space`file
      ensures ShapeNow() == old(ShapeNow())
      ensures (old(cache.orphaned) ==> cache.orphaned) && cache.buckets == old(cache.buckets)
      ensures old(health) != Good ==> r == None && health == old(health)
      ensures old(health) == Good ==>
                if health == Good then Valid() else health == Dead && cache.auto && old(cache.orphaned)
      ensures cache.auto && !old(cache.orphaned) ==> !cache.orphaned
      ensures health != Dead ==> cache.bits >= old(cache.bits)
      ensures old(health) == Good && health == Good ==> r == if key in data then Some(data[key]) else None
      ensures health != Good ==> r == None
    {
      hide Valid, Hash, LookUp, Table, Placed;
      if health != Good {
        return None;
      }
      var ok, elemLoc, value;
      ghost var t;
      ok, elemLoc, value, t := FindKey(key);
      return if ok && elemLoc != -1 then Some(value) else None;
    }

    /** The end of gdbm_store: the record is written, and then everything that changed. */
    method Complete(key: Key, content: Value, adr: nat)
      requires Steady({}, NOTHING, {key}) && key in data && data[key] == content && key in loc && loc[key].Elem?
      requires recs.Keys == data.Keys && recs[key] == Extent(loc[key]) && recs[key] == Region(adr, |key| + |content|)
      requires PrefixOf(cache.lru[1..], Dirty(cache.elems)) && health == Good && olds == map[] && DirWritten()
      requires HeaderWritten()
      modifies this`directoryChanged, cache`elems, cache`buckets, space`file, space`headerChanged
      ensures Valid() && cache.buckets == old(cache.buckets)
    {
      hide State.Ok, World.Sound, Current, Stored, Allotted, Linked, AllLinked, LinkedLive, Leading, Chained, DirHeld,
           HeaderHeld, PairsOk, Settled, Distinct, PrefixOf, Dirty, Valid;
      ghost var w := Now();
      var file := Write(Write(space.file, adr, RawCells(key)), adr + |key|, RawCells(content));
      RecordOwned(w, key);
      BothWritten(w.own, w.file, file, adr, key, content);
      KeyWritten(w, key, file);
      OwnerWrote(w, file, space.Now(0, []), Record(key), cache.elems, {cache.Cur()} + {}, {}, NOTHING, {key},
          space.capacity);
      space.file := file;
      Finish();
    }

    /** gdbm_store */
    method Store(key: Key, content: Value, replace: bool) returns (rc: int)
      requires health != Dead && (health == Good ==> Valid())
      modifies this, cache, space
      ensures old(cache.orphaned) ==> cache.orphaned
      ensures old(health) != Good ==> rc == -1 && health == old(health) && data == old(data)
      ensures old(health) != Good ==> cache.orphaned == old(cache.orphaned)
      ensures health == Good ==> Valid()
      ensures old(health) == Good && health == Good ==>
                && cache.bits >= old(cache.bits)
                && ShapeNow() == if key in old(data) then old(ShapeNow()) else Widened(old(ShapeNow()), old(data),
                    Hash(key), slots)
      ensures old(health) == Good && cache.auto && !old(cache.orphaned) ==>
                (key in old(data) || old(Easily(ShapeNow(), data, Hash(key), slots, cache.bits)) ==> !cache.orphaned)
      ensures old(health) == Good && !(cache.auto && cache.orphaned) ==>
                (health == Good <==> (key in old(data) || !Crowded(old(data), key, slots))) && health != Dead
      ensures old(health) == Good && health == Good && key in old(data) && !replace ==> rc == 1 && data == old(data)
      ensures old(health) == Good && health == Good && (key !in old(data) || replace) ==> rc == 0
      ensures old(health) == Good && health == Good && (key !in old(data) || replace) ==>
                data == old(data)[key := content]
      ensures old(health) == Good && health == Good ==> key in old(data) || !Crowded(old(data), key, slots)
      ensures health != Good ==> rc == -1
    {
      hide DatabaseFile.Placed, DatabaseFile.Table, Widened, Easily, ShapeOf, Valid, Hash, LookUp, Crowded;
      if health != Good {
        return -1;
      }
      var ok, elemLoc, value;
      ghost var t;
      ok, elemLoc, value, t := FindKey(key);
      if !ok {
        return -1;
      }
      if elemLoc != -1 {
        if replace {
          ReplaceCurrent(key, content, elemLoc, t);
          return 0;
        }
        return 1;
      }
      EasilyStill(ShapeNow(), data, Hash(key), slots, old(cache.bits), cache.bits);
      ok := InsertCurrent(key, content, t);
      return if ok then 0 else -1;
    }

    /** Storing a key that is not there. */
    method InsertCurrent(key: Key, content: Value, ghost t: seq<Slot>) returns (ok: bool)
      requires Valid() && Placed(key) && Table(t) && key !in data
      modifies this, cache, space
      ensures old(cache.orphaned) ==> cache.orphaned
      ensures ok <==> health == Good
      ensures ok ==> ShapeNow() == Widened(old(ShapeNow()), old(data), Hash(key), slots)
      ensures ok ==> cache.bits >= old(cache.bits)
      ensures cache.auto && !old(cache.orphaned) && old(Easily(ShapeNow(), data, Hash(key), slots, cache.bits)) ==>
                !cache.orphaned
      ensures ok ==> Valid() && data == old(data)[key := content] && !Crowded(old(data), key, slots)
      ensures !(cache.auto && cache.orphaned) ==> (ok <==> !Crowded(old(data), key, slots)) && health != Dead
    {
      hide World.Sound, Dirty, Valid, Hash, LookUp, Steady, PrefixOf, Listed, Chained, DirWritten, HeaderWritten,
           Crowded, Widened, Easily, ShapeOf;
      var n := |key| + |content|;
      var adr := ReserveRecord(key, n, t);
      ok := MakeRoom(key);
      if ok {
        InsertSlot(key, content, adr);
      }
    }

    /** Space for the record of a key that is not there. */
    method ReserveRecord(ghost key: Key, n: nat, ghost t: seq<Slot>) returns (adr: nat)
      requires Valid() && Placed(key) && Table(t) && key !in data
      modifies this`recs, space, cache`elems, cache`buckets
      ensures Ready(key) && olds == map[] && SameDepths(old(cache.buckets), cache.buckets)
      ensures recs.Keys == data.Keys + {key} && recs[key] == Region(adr, n)
    {
      hide World.Sound, Dirty, Valid, Hash, LookUp, Steady, PrefixOf, Listed, Chained, DirWritten, HeaderWritten,
           CurrentAvailOnly, SameDepths;
      BeginUpdate(key);
      BoundaryFacts(key);
      NothingDirty(cache.lru[1..]);
      adr := AllocCurrent(n, {}, {});
      SameTable(old(cache.elems), cache.elems, cache.lru, old(cache.buckets), cache.buckets);
      AvailDepths(old(cache.elems), cache.elems, cache.lru, old(cache.buckets), cache.buckets);
      TailKept(old(cache.elems), cache.elems, cache.lru, 1, old(cache.buckets), cache.buckets);
      GrantRecord(key, {}, Region(adr, n), {});
      HeadSame({}, NOTHING, {});
    }

    /** The bucket is split if it is full. */
    method MakeRoom(key: Key) returns (ok: bool)
      requires Ready(key) && olds == map[]
      modifies this`dirAdr, this`dirBits, this`dir, this`bucketDir, this`directoryChanged, this`olds, this`health,
               space, cache
      ensures old(cache.orphaned) ==> cache.orphaned
      ensures ok <==> health == Good
      ensures ok ==> ShapeNow() == Widened(old(ShapeNow()), data, Hash(key), slots) && cache.bits >= old(cache.bits)
      ensures cache.auto && !old(cache.orphaned) && old(Easily(ShapeNow(), data, Hash(key), slots, cache.bits)) ==>
                !cache.orphaned
      ensures ok ==> Ready(key) && olds == map[] && cache.buckets[cache.Cur()].count < slots
      ensures ok ==> !Crowded(data, key, slots)
      ensures !(cache.auto && cache.orphaned) ==> (ok <==> !Crowded(data, key, slots)) && health != Dead
    {
      hide WithRoom, Depth, Easily, Sharing, ShapeOf, World.Sound, State.Ok, Steady, Listed, Chained, Pow2, Hash,
           LookUp, PrefixOf, Dirty, DirHeld, HeaderHeld, Crowded;
      ReadyBounds(key);
      ok := true;
      NoRound(ShapeNow(), data, Hash(key), cache.buckets[cache.Cur()].bits, slots);
      if cache.elems[cache.lru[0]].bucket.count == slots {
        var rc := Split(key);
        ok := rc == Fits;
      }
      if ok {
        SoundNow({}, NOTHING, {});
        ReadyBounds(key);
        RoomNotCrowded(Now(), {}, NOTHING, cache.Cur(), key);
      }
    }

    /** The new key's slot goes to the first empty place after its home. */
    method InsertSlot(key: Key, content: Value, adr: nat)
      requires Steady({}, NOTHING, {}) && Placed(key) && key !in data && cache.buckets[cache.Cur()].count < slots
      requires recs.Keys == data.Keys + {key} && recs[key] == Region(adr, |key| + |content|)
      requires PrefixOf(cache.lru[1..], Dirty(cache.elems)) && health == Good && olds == map[] && DirWritten()
      requires HeaderWritten()
      modifies this`data, this`loc, this`directoryChanged, cache`elems, cache`buckets, space`file, space`headerChanged
      ensures Valid() && data == old(data)[key := content] && SameDepths(old(cache.buckets), cache.buckets)
    {
      hide BucketCache.Shaped, DatabaseFile.DirWritten, DatabaseFile.HeaderWritten, SameDepths, World.Sound, Dirty,
           Valid, Hash, LookUp, Steady, PrefixOf, Listed, Chained, DirHeld, HeaderHeld, BucketOk, OnPath;
      HeadSame({}, NOTHING, {});
      ghost var cur := cache.Cur();
      LoseKey(key);
      var b := cache.elems[cache.lru[0]].bucket;
      var hash := Hash(key);
      var slot := Elem(hash, Prefix(key), adr, |key|, |content|);
      SoundNow({}, NOTHING, {key});
      StoredBucket(Now(), cur, key, content, slot, {key});
      NoSlot(Now(), key);
      TableLength(b, slots);
      var elemLoc := FindEmpty(b.table, hash);
      if elemLoc == -1 {
        assert false;
      }
      SlotInserted(b, slots, elemLoc, slot);
      var b' := b.(table := b.table[elemLoc := slot], count := b.count + 1);
      KeyEntered(Now(), cur, key, content, slot, b', {key});
      UpdateCurrent(b', false, key, data[key := content], loc[key := slot], {key});
      DepthsKept(old(cache.buckets), cache.buckets, cur, cache.buckets[cur]);
      HeadOnly(old(cache.elems), cache.lru, cache.elems, 1);
      Complete(key, content, adr);
    }

    // ----- splitting -----

    /** The state at the head of the split loop. */
    ghost predicate Ready(key: Key)
      reads this, space, cache
    {
      && Steady({}, NOTHING, {}) && Placed(key) && PrefixOf(cache.lru[1..], Dirty(cache.elems)) && DirWritten()
      && HeaderWritten()
      && health == Good
    }

    /** The current bucket is the key's; it is full, and `bits` is the depth of its successors. */
    ghost predicate Splitting(key: Key, bits: nat)
      reads this, cache
    {
      Placed(key) && cache.buckets[cache.Cur()].count == slots && bits == cache.buckets[cache.Cur()].bits + 1
    }

    /** The new buckets `young` are there, behind the current one. */
    ghost predicate Trailed(young: seq<nat>, bits: nat, spare: Region)
      reads this, space, cache
    {
      && Steady(Among(young), spare, {}) && Lineup(cache.elems, cache.lru, cache.buckets, young, NewBucket(bits, slots))
      && PrefixOf(cache.lru[|young| + 1..], Dirty(cache.elems))
    }

    /** Both of them are. */
    ghost predicate Paired(adr0: nat, adr1: nat, bits: nat)
      reads this, space, cache
    {
      Trailed([adr0, adr1], bits, NOTHING) && adr0 != adr1 && adr0 > 0 && adr1 > 0 && |cache.lru| > 2
    }

    /** One round of _gdbm_split_bucket; `n` counts the old directories. */
    method SplitOnce(key: Key, ghost n: nat) returns (rc: SplitResult, grown: bool, oldAdr: nat, oldSize: nat)
      requires Ready(key) && n !in olds && cache.buckets[cache.Cur()].count == slots
      modifies this`dirAdr, this`dirBits, this`dir, this`bucketDir, this`directoryChanged, this`olds, this`health,
               space, cache
      ensures old(cache.orphaned) ==> cache.orphaned
      ensures rc == Fits ==> Ready(key) && cache.buckets[cache.Cur()].bits == old(cache.buckets[cache.Cur()].bits) + 1
      ensures rc == Fits ==> ShapeNow() == Round(old(ShapeNow()), Hash(key)) && cache.bits >= old(cache.bits)
      ensures cache.auto && !old(cache.orphaned) && old(Comfortable(ShapeNow(), cache.bits)) ==> !cache.orphaned
      ensures rc == Fits ==> dirBits == old(dirBits) + (if grown then 1 else 0)
      ensures rc == Fits ==> olds == if grown then old(olds)[n := Region(oldAdr, oldSize)] else old(olds)
      ensures rc == Overflow ==> health == NeedsRecovery && Crowded(data, key, slots)
      ensures rc == Corrupted ==> health == NeedsRecovery && cache.auto && cache.orphaned
      ensures rc == Died ==> health == Dead && cache.auto && cache.orphaned
    {
      hide DatabaseFile.Paired, World.Sound, State.Ok, Steady, Listed, Chained, Pow2, Hash, LookUp, PrefixOf, Dirty,
           Lineup, DirHeld, HeaderHeld, Crowded, SameDepths, Comfortable, Round, ShapeOf;
      grown, oldAdr, oldSize := false, 0, 0;
      HeadSame({}, NOTHING, {});
      var bits := cache.elems[cache.lru[0]].bucket.bits + 1;
      var outcome, adr0, adr1 := FreshPair(key, bits);
      if outcome != New {
        rc := Failed(outcome);
        return;
      }
      rc, grown, oldAdr, oldSize := FinishSplit(key, adr0, adr1, bits, n);
    }

    /** The first steps of the round: the two new buckets. */
    method FreshPair(ghost key: Key, bits: nat) returns (outcome: Outcome, adr0: nat, adr1: nat)
      requires Steady({}, NOTHING, {}) && PrefixOf(cache.lru[1..], Dirty(cache.elems)) && DirWritten()
      requires HeaderWritten()
      requires Splitting(key, bits)
      modifies space, cache
      ensures old(cache.orphaned) ==> cache.orphaned
      ensures outcome != New ==> cache.auto && cache.orphaned
      ensures cache.auto && !old(cache.orphaned) && old(Comfortable(ShapeNow(), cache.bits)) ==> !cache.orphaned
      ensures outcome == New ==> Paired(adr0, adr1, bits) && Splitting(key, bits) && DirWritten() && HeaderWritten()
      ensures outcome == New ==> cache.bits >= old(cache.bits)
      ensures outcome == New ==> Depths(cache.buckets - {adr0, adr1}) == Depths(old(cache.buckets))
    {
      hide DatabaseFile.Splitting, World.Sound, State.Ok, Steady, Pow2, PrefixOf, Dirty, DirHeld, HeaderHeld,
           EntryDepths, Depths;
      adr0, adr1 := 0, 0;
      HeadSame({}, NOTHING, {});
      assert Among([]) == {};
      LineupNone(cache.elems, cache.lru, cache.buckets, NewBucket(bits, slots));
      ghost var buckets0, bits0 := cache.buckets, cache.bits;
      outcome, adr0 := FreshBucket(key, bits, []);
      if outcome != New {
        return;
      }
      assert [] + [adr0] == [adr0];
      ghost var buckets1 := cache.buckets;
      Pow2Monotonic(bits0, cache.bits);
      outcome, adr1 := FreshBucket(key, bits, [adr0]);
      if outcome != New {
        return;
      }
      assert [adr0] + [adr1] == [adr0, adr1];
      assert cache.buckets - {adr0, adr1} == (cache.buckets - {adr1}) - {adr0};
      DepthsMinus(buckets1, cache.buckets - {adr1}, adr0);
    }

    /** The rest of the round, once both new buckets are there. */
    method FinishSplit(key: Key, adr0: nat, adr1: nat, bits: nat, ghost n: nat) returns (rc: SplitResult, grown: bool,
        oldAdr: nat, oldSize: nat)
      requires n !in olds && health == Good && HeaderWritten() && Paired(adr0, adr1, bits) && Splitting(key, bits)
      modifies this`dirAdr, this`dirBits, this`dir, this`bucketDir, this`directoryChanged, this`olds, this`health,
               space, cache`elems, cache`lru, cache`table, cache`buckets
      ensures rc in {Fits, Overflow}
      ensures rc == Overflow ==> health == NeedsRecovery && Crowded(data, key, slots)
      ensures rc == Fits ==> dirBits == old(dirBits) + (if grown then 1 else 0)
      ensures rc == Fits ==> olds == if grown then old(olds)[n := Region(oldAdr, oldSize)] else old(olds)
      ensures rc == Fits ==> ShapeNow() == Round(old(ShapeBut(adr0, adr1)), Hash(key))
      ensures rc == Fits ==> Ready(key) && cache.buckets[cache.Cur()].bits == bits
    {
      hide DatabaseFile.Paired, DatabaseFile.Splitting, EntryDepths, Deepened, Depths, Depth, World.Sound, State.Ok,
           Steady, Listed, Chained, Pow2, Hash, LookUp, PrefixOf, Dirty, Lineup, DirHeld, HeaderHeld, Crowded, Wired;
      PairedBounds(key, adr0, adr1, bits);
      ghost var s := ShapeBut(adr0, adr1);
      rc, grown, oldAdr, oldSize := Fits, false, 0, 0;
      if dirBits == cache.elems[cache.lru[0]].bucket.bits {
        grown, oldAdr, oldSize := GrowForSplit(key, adr0, adr1, bits, n);
        if !grown {
          rc := Overflow;
          return;
        }
      }
      assert s == old(ShapeBut(adr0, adr1));
      ShareOut(key, adr0, adr1, bits);
    }

    lemma PairedBounds(key: Key, adr0: nat, adr1: nat, bits: nat)
      requires Paired(adr0, adr1, bits) && Splitting(key, bits)
      ensures |cache.lru| > 0 && cache.lru[0] in cache.elems && cache.elems[cache.lru[0]].bucket.bits + 1 == bits
      ensures bits <= dirBits + 1 && Depth(ShapeBut(adr0, adr1), Hash(key)) + 1 == bits
    {
      hide EntryDepths, Depths, Depth, World.Sound, State.Ok, Steady, Listed, Chained, Pow2, Hash, LookUp, PrefixOf,
           Dirty, Lineup;
      assert Among([adr0, adr1]) == {adr0, adr1};
      HeadSame({adr0, adr1}, NOTHING, {});
      SoundNow({adr0, adr1}, NOTHING, {});
      DepthBound(Now(), {adr0, adr1}, cache.Cur());
      HashBound(key);
      SplitDepth(Now(), {adr0, adr1}, NOTHING, Hash(key));
    }

    /** The bucket is as deep as the directory, which has to be doubled first. */
    method GrowForSplit(key: Key, adr0: nat, adr1: nat, bits: nat, ghost n: nat) returns (ok: bool, oldAdr: nat,
        oldSize: nat)
      requires n !in olds && bits == dirBits + 1 && Paired(adr0, adr1, bits) && Splitting(key, bits)
      modifies this`dirAdr, this`dirBits, this`dir, this`bucketDir, this`olds, this`health, space, cache`elems,
               cache`buckets
      ensures !ok ==> health == NeedsRecovery && Crowded(data, key, slots)
      ensures ok ==> dirBits == old(dirBits) + 1 && olds == old(olds)[n := Region(oldAdr, oldSize)]
      ensures ok ==> space.headerChanged && health == old(health)
      ensures ok ==> ShapeBut(adr0, adr1) == Grown(old(ShapeBut(adr0, adr1)))
      ensures ok ==> Paired(adr0, adr1, bits) && Splitting(key, bits)
    {
      hide EntryDepths, Depths, World.Sound, State.Ok, Steady, Listed, Chained, Pow2, Hash, LookUp, PrefixOf, Dirty,
           Lineup, DirHeld, HeaderHeld, Crowded, Wired, Doubled;
      assert Among([adr0, adr1]) == {adr0, adr1};
      HeadSame({adr0, adr1}, NOTHING, {});
      SoundNow({adr0, adr1}, NOTHING, {});
      if dirBits == MAX_DIR_BITS {
        OverflowCrowded(Now(), {adr0, adr1}, NOTHING, cache.Cur(), key);
      }
      ok, oldAdr, oldSize := GrowDirectory(key, [adr0, adr1], bits, n);
      if ok {
        DepthsBut(old(cache.buckets), cache.buckets, cache.Cur(), cache.buckets[cache.Cur()], {adr0, adr1});
        ShapeGrown(old(dir), old(dirBits), Depths(cache.buckets - {adr0, adr1}));
      }
    }

    /** _gdbm_split_bucket: split the current bucket until the one for `key` has room. */
    method Split(key: Key) returns (rc: SplitResult)
      requires Ready(key) && olds == map[]
      modifies this`dirAdr, this`dirBits, this`dir, this`bucketDir, this`directoryChanged, this`olds, this`health,
               space, cache
      ensures old(cache.orphaned) ==> cache.orphaned
      ensures rc == Fits ==> ShapeNow() == Widened(old(ShapeNow()), data, Hash(key), slots)
      ensures rc == Fits ==> cache.bits >= old(cache.bits)
      ensures cache.auto && !old(cache.orphaned) && old(Easily(ShapeNow(), data, Hash(key), slots, cache.bits)) ==>
                !cache.orphaned
      ensures rc == Fits ==> Ready(key) && olds == map[] && cache.buckets[cache.Cur()].count < slots
      ensures rc == Overflow ==> health == NeedsRecovery && Crowded(data, key, slots)
      ensures rc == Corrupted ==> health == NeedsRecovery && cache.auto && cache.orphaned
      ensures rc == Died ==> health == Dead && cache.auto && cache.orphaned
    {
      hide WithRoom, Easy, Sharing, Round, ShapeOf, Comfortable, Depth, World.Sound, State.Ok, Steady, Listed,
           Chained, Pow2, Hash, LookUp, PrefixOf, Dirty, DirHeld, HeaderHeld, Crowded;
      var oldDirs: seq<Region> := [];
      rc := Fits;
      ReadyBounds(key);
      ghost var hash, s0, d0, bits0 := Hash(key), ShapeNow(), cache.buckets[cache.Cur()].bits, cache.bits;
      assert Numbered([], 0) == map[];
      while cache.elems[cache.lru[0]].bucket.count == slots
        invariant rc == Fits && Ready(key) && olds == Numbered(oldDirs, 0) && |oldDirs| == dirBits - old(dirBits)
        invariant |cache.lru| > 0 && cache.lru[0] in cache.elems
        invariant cache.elems[cache.lru[0]].bucket == cache.buckets[cache.Cur()]
        invariant cache.buckets[cache.Cur()].bits <= dirBits <= MAX_DIR_BITS
        invariant cache.buckets[cache.Cur()].count <= slots
        invariant old(cache.orphaned) ==> cache.orphaned
        invariant cache.buckets[cache.Cur()].count == Sharing(data, hash, cache.buckets[cache.Cur()].bits)
        invariant cache.bits >= bits0
        invariant WithRoom(s0, data, hash, d0, slots) ==
                  WithRoom(ShapeNow(), data, hash, cache.buckets[cache.Cur()].bits, slots)
        invariant cache.auto && !old(cache.orphaned) && Easy(s0, data, hash, d0, slots, bits0) ==>
                    !cache.orphaned && Easy(ShapeNow(), data, hash, cache.buckets[cache.Cur()].bits, slots, cache.bits)
        decreases MAX_DIR_BITS + 1 - cache.buckets[cache.Cur()].bits
      {
        // old_adr and old_size have room for GDBM_HASH_BITS directories
        assert |oldDirs| < HASH_BITS;
        var grown, oldAdr, oldSize;
        ghost var s, d, bits := ShapeNow(), cache.buckets[cache.Cur()].bits, cache.bits;
        NextRound(s, s, data, hash, d, slots, bits, bits);
        rc, grown, oldAdr, oldSize := SplitOnce(key, |oldDirs|);
        if rc != Fits {
          return;
        }
        ReadyBounds(key);
        NextRound(s, ShapeNow(), data, hash, d, slots, bits, cache.bits);
        if grown {
          NumberedNext(oldDirs, Region(oldAdr, oldSize));
          oldDirs := oldDirs + [Region(oldAdr, oldSize)];
        }
      }
      NoRound(ShapeNow(), data, hash, cache.buckets[cache.Cur()].bits, slots);
      ReleaseDirectories(key, oldDirs);
    }

    /** The old directories' space is released, the oldest first. */
    method ReleaseDirectories(ghost key: Key, oldDirs: seq<Region>)
      requires Ready(key) && olds == Numbered(oldDirs, 0) && cache.buckets[cache.Cur()].count < slots
      modifies this`olds, space, cache`elems, cache`buckets
      ensures Ready(key) && olds == map[] && cache.buckets[cache.Cur()].count < slots
      ensures SameDepths(old(cache.buckets), cache.buckets)
    {
      hide SameDepths, World.Sound, State.Ok, Steady, Listed, Chained, Pow2, Hash, LookUp, PrefixOf, Dirty, DirHeld,
           HeaderHeld;
      SameDepthsRefl(cache.buckets);
      var index := 0;
      while index < |oldDirs|
        invariant index <= |oldDirs| && Ready(key) && olds == Numbered(oldDirs, index)
        invariant cache.buckets[cache.Cur()].count < slots
        invariant SameDepths(old(cache.buckets), cache.buckets)
      {
        NumberedRest(oldDirs, index);
        ghost var buckets1 := cache.buckets;
        ReleaseDirectory(key, index, oldDirs[index].adr, oldDirs[index].len);
        SameDepthsTrans(old(cache.buckets), buckets1, cache.buckets);
        index := index + 1;
      }
      assert Numbered(oldDirs, |oldDirs|) == map[];
    }

    method ReleaseDirectory(ghost key: Key, ghost n: nat, adr: nat, size: nat)
      requires Ready(key) && n in olds && olds[n] == Region(adr, size)
      modifies this`olds, space, cache`elems, cache`buckets
      ensures Ready(key) && olds == old(olds) - {n} && cache.Cur() == old(cache.Cur())
      ensures cache.buckets[cache.Cur()].count == old(cache.buckets[cache.Cur()].count)
      ensures SameDepths(old(cache.buckets), cache.buckets)
    {
      hide SameDepths, World.Sound, State.Ok, Steady, Listed, Chained, Pow2, Hash, LookUp, PrefixOf, Dirty, DirHeld,
           HeaderHeld, CurrentAvailOnly;
      ghost var elems0, buckets0 := cache.elems, cache.buckets;
      HeadSame({}, NOTHING, {});
      GiveUpDirectory(n);
      ReleaseCurrent(adr, size, {}, {});
      AvailDepths(elems0, cache.elems, cache.lru, buckets0, cache.buckets);
      HeadSame({}, NOTHING, {});
      SameTable(elems0, cache.elems, cache.lru, buckets0, cache.buckets);
      TailKept(elems0, cache.elems, cache.lru, 1, buckets0, cache.buckets);
    }

    /** Old directory `n` is about to be released. */
    ghost method GiveUpDirectory(n: nat)
      requires Steady({}, NOTHING, {}) && n in olds
      modifies this`olds, space`owner
      ensures Steady({}, old(olds)[n], {}) && olds == old(olds) - {n}
    {
      hide State.Ok, World.Sound, Painted, Stored, Current, Allotted, Linked, AllLinked, LinkedLive, Leading, Chained,
           PairsOk, Settled, Distinct;
      ghost var r := olds[n];
      DirectoryGivenUp(Now(), n);
      space.owner := Paint(space.owner, r.adr, r.len, Reserved);
      OutsideMoved(space.Now(0, []).(own := old(space.owner)), space.owner, space.blockSize, space.capacity);
      olds := olds - {n};
    }

    lemma ReadyBounds(key: Key)
      requires Ready(key)
      ensures |cache.lru| > 0 && cache.lru[0] in cache.elems && Listed(cache.elems, cache.lru)
      ensures cache.Cur() in cache.buckets
      ensures cache.elems[cache.lru[0]].bucket == cache.buckets[cache.Cur()]
      ensures cache.buckets[cache.Cur()].bits <= dirBits <= MAX_DIR_BITS && cache.buckets[cache.Cur()].count <= slots
      ensures cache.buckets[cache.Cur()].count == Sharing(data, Hash(key), cache.buckets[cache.Cur()].bits)
      ensures cache.buckets[cache.Cur()].bits == Depth(ShapeNow(), Hash(key))
    {
      hide World.Sound, State.Ok, Steady, Chained, Pow2, Hash, LookUp, PrefixOf, Dirty, DirHeld, HeaderHeld, Sharing,
           ShapeOf, Depth;
      HeadSame({}, NOTHING, {});
      SoundNow({}, NOTHING, {});
      DepthBound(Now(), {}, cache.Cur());
      HashBound(key);
      assert cache.buckets - {} == cache.buckets;
      SplitDepth(Now(), {}, NOTHING, Hash(key));
      SharedCount(Now(), NOTHING, Hash(key));
    }

    /** Why a split gave up: the process has died, or the database needs recovery. */
    method Failed(outcome: Outcome) returns (rc: SplitResult)
      requires outcome != New
      modifies this`health
      ensures (rc == Died && health == Dead) || (rc == Corrupted && health == NeedsRecovery)
    {
      if outcome == Aborted {
        rc, health := Died, Dead;
      } else {
        rc, health := Corrupted, NeedsRecovery;
      }
    }

    /** One new bucket is allocated and gets its place in the cache, behind the current one. */
    method FreshBucket(ghost key: Key, bits: nat, young: seq<nat>) returns (rc: Outcome, adr: nat)
      requires Trailed(young, bits, NOTHING) && Splitting(key, bits) && |young| <= 1
      modifies space, cache
      ensures old(cache.orphaned) ==> cache.orphaned
      ensures rc != New ==> cache.auto && old(cache.orphaned)
      ensures !old(cache.orphaned) && old(cache.Roomy(|cache.buckets|, dirBits)) ==> !cache.orphaned
      ensures rc == New ==> cache.bits >= old(cache.bits) && |cache.buckets| == |old(cache.buckets)| + 1
      ensures rc == New ==> Trailed(young + [adr], bits, NOTHING) && Splitting(key, bits) && adr !in young && adr > 0
      ensures rc == New ==> |young| + 2 <= |cache.lru|
      ensures rc == New ==> Depths(cache.buckets - {adr}) == Depths(old(cache.buckets))
      ensures rc == New && old(DirWritten()) ==> DirWritten()
      ensures rc == New && old(HeaderWritten()) ==> HeaderWritten()
    {
      hide DatabaseFile.Trailed, DatabaseFile.Splitting, Depths, Pow2, Wired;
      ghost var buckets0 := cache.buckets;
      adr := AllocFresh(key, bits, young);
      SameDepthsCount(buckets0, cache.buckets);
      rc := EnterFresh(key, adr, bits, young);
    }

    /** The new bucket's space. */
    method AllocFresh(ghost key: Key, bits: nat, ghost young: seq<nat>) returns (adr: nat)
      requires Trailed(young, bits, NOTHING) && Splitting(key, bits)
      modifies space, cache`elems, cache`buckets
      ensures Trailed(young, bits, Region(adr, space.blockSize)) && Splitting(key, bits) && adr !in cache.buckets
      ensures adr !in young && adr > 0
      ensures Depths(cache.buckets) == Depths(old(cache.buckets))
      ensures old(DirWritten()) ==> DirWritten()
      ensures old(HeaderWritten()) ==> HeaderWritten()
    {
      hide World.Sound, Dirty, Steady, PrefixOf, Listed, Chained, DirHeld, HeaderHeld, CurrentAvailOnly, Lineup,
           Depths, LookUp, Hash, Pow2;
      ghost var elems0, buckets0 := cache.elems, cache.buckets;
      HeadSame(Among(young), NOTHING, {});
      adr := AllocCurrent(space.blockSize, Among(young), {});
      HeadSame(Among(young), Region(adr, space.blockSize), {});
      LineupKept(elems0, cache.elems, cache.lru, buckets0, cache.buckets, young, NewBucket(bits, slots));
      SameTable(elems0, cache.elems, cache.lru, buckets0, cache.buckets);
      DepthsBut(buckets0, cache.buckets, cache.Cur(), cache.buckets[cache.Cur()], {});
      assert buckets0 - {} == buckets0 && cache.buckets - {} == cache.buckets;
      TailKept(elems0, cache.elems, cache.lru, |young| + 1, buckets0, cache.buckets);
      SoundNow(Among(young), Region(adr, space.blockSize), {});
      FreshAddress(Now(), Among(young), adr);
      LineupMembers(cache.elems, cache.lru, cache.buckets, young, NewBucket(bits, slots));
    }

    /** Its place in the cache, and in the books. */
    method EnterFresh(ghost key: Key, adr: nat, bits: nat, young: seq<nat>) returns (rc: Outcome)
      requires Trailed(young, bits, Region(adr, space.blockSize)) && Splitting(key, bits) && |young| <= 1
      requires adr !in cache.buckets && adr > 0
      modifies space, cache
      ensures old(cache.orphaned) ==> cache.orphaned
      ensures rc != New ==> cache.auto && old(cache.orphaned)
      ensures !old(cache.orphaned) && old(cache.Roomy(|cache.buckets|, dirBits)) ==> !cache.orphaned
      ensures rc == New ==> cache.bits >= old(cache.bits) && |cache.buckets| == |old(cache.buckets)| + 1
      ensures rc == New ==> Trailed(young + [adr], bits, NOTHING) && Splitting(key, bits) && |young| + 2 <= |cache.lru|
      ensures rc == New ==> Depths(cache.buckets - {adr}) == Depths(old(cache.buckets))
      ensures rc == New && old(DirWritten()) ==> DirWritten()
      ensures rc == New && old(HeaderWritten()) ==> HeaderWritten()
    {
      hide DatabaseFile.Trailed, DatabaseFile.Waiting, DatabaseFile.DirWritten, DatabaseFile.HeaderWritten, Listed,
           Chained, Depths, LookUp, Hash, Pow2, Wired;
      ghost var buckets0, cur := cache.buckets, cache.Cur();
      var id;
      rc, id := AcquireFresh(key, adr, bits, young);
      if rc == New {
        Enroll(key, adr, bits, young, id);
        PairDepths(buckets0, cache.buckets, cur, adr);
      }
    }

    /** The new bucket is made, in its element and in the books. */
    method Enroll(ghost key: Key, adr: nat, bits: nat, young: seq<nat>, id: nat)
      requires Waiting(young, bits, adr, id) && Splitting(key, bits) && adr !in cache.buckets && adr > 0
      modifies cache`elems, cache`buckets, space`owner
      ensures Trailed(young + [adr], bits, NOTHING) && Splitting(key, bits) && |young| + 2 <= |cache.lru|
      ensures cache.buckets == old(cache.buckets)[adr := NewBucket(bits, slots)]
    {
      hide State.Ok, World.Sound, Stored, Current, Linked, AllLinked, LinkedLive, Leading, Chained, PairsOk, Settled,
           PrefixOf, Distinct, AdrHash, Pow2, Painted;
      ghost var w, cur, elems0, own0 := Now(), cache.Cur(), cache.elems, space.owner;
      ghost var open := {cur} + Among(young);
      var b := NewBucket(bits, slots);
      LineupFirst(cache.elems, cache.lru, cache.buckets, young, b, id);
      BucketBorn(w, Among(young), adr, b);
      Reown(Paint(space.owner, adr, space.blockSize, BucketAt(adr)), open, {id});
      cache.Fill(|young| + 1, b, false, open, {id});
      assert Among(young + [adr]) == Among(young) + {adr};
      assert open + {adr} == {cur} + Among(young + [adr]);
      PairsEnrolled(elems0, cache.elems, cache.lru, |young| + 1, w.buckets, cache.buckets, data, loc, cur);
      assert Dirty(cache.elems) == Dirty(elems0);
    }

    /** The invariant while element `id` has been linked and its bucket not made yet. */
    ghost predicate Awaiting(young: set<nat>, spare: Region, id: nat)
      reads this, space, cache
    {
      && Wired() && cache.Shaped() && |cache.lru| > 0 && cache.Cur() in cache.buckets && cache.Cur() !in young
      && cache.Coherent({cache.Cur()} + young, {id})
      && space.Valid(0, [])
      && Now().Sound(young, spare, {})
      && PairsOk(cache.elems, cache.lru, cache.buckets, data, loc, {cache.Cur()})
    }

    /** The new bucket's element is in its place. */
    ghost predicate Waiting(young: seq<nat>, bits: nat, adr: nat, id: nat)
      reads this, space, cache
    {
      && Awaiting(Among(young), Region(adr, space.blockSize), id) && |young| + 1 < |cache.lru|
      && Lineup(cache.elems, cache.lru, cache.buckets, young, NewBucket(bits, slots))
      && cache.lru[|young| + 1] == id && id in cache.elems && cache.elems[id] == Fresh(adr)
      && PrefixOf(cache.lru[|young| + 2..], Dirty(cache.elems))
    }

    /** cache_lookup for the new bucket. */
    method AcquireFresh(ghost key: Key, adr: nat, bits: nat, young: seq<nat>) returns (rc: Outcome, id: nat)
      requires Trailed(young, bits, Region(adr, space.blockSize)) && Splitting(key, bits) && |young| <= 1
      requires adr !in cache.buckets
      modifies cache, space`file
      ensures cache.buckets == old(cache.buckets) && (old(cache.orphaned) ==> cache.orphaned)
      ensures rc != New ==> cache.auto && old(cache.orphaned)
      ensures !old(cache.orphaned) && old(cache.Roomy(|cache.buckets|, dirBits)) ==> !cache.orphaned
      ensures rc == New ==> cache.bits >= old(cache.bits)
      ensures rc == New ==> Waiting(young, bits, adr, id) && Splitting(key, bits)
      ensures rc == New && old(DirWritten()) ==> DirWritten()
      ensures rc == New && old(HeaderWritten()) ==> HeaderWritten()
    {
      hide Listed, LaidOut, State.Ok, World.Sound, OnlyBuckets, Stored, Current, Allotted, Linked, AllLinked,
           LinkedLive, Leading, Chained, DirHeld, HeaderHeld, PairsOk, Settled, PrefixOf, Distinct, Dirty, AdrHash,
           Pow2, BucketCache.StaleLink, Unlinked;
      ghost var w, k, elems0, lru0 := Now(), |young|, cache.elems, cache.lru;
      AvailNow(space.Now(0, []), space.blockSize, space.capacity);
      LineupLive(elems0, lru0, cache.buckets, young, NewBucket(bits, slots));
      rc, id := cache.AcquireAfter(adr, |young|, dirBits, {cache.Cur()} + Among(young));
      if rc != New {
        return;
      }
      WritesKept(w, space.file, space.Now(0, []).(file := w.file), space.blockSize, space.capacity, Among(young),
          Region(adr, space.blockSize), {});
      LineupAcquired(elems0, lru0, cache.elems, cache.lru, cache.buckets, young, NewBucket(bits, slots), id);
      AfterPairs(elems0, lru0, cache.elems, cache.lru, k + 1, id, cache.buckets, data, loc, {cache.Cur()});
    }

    /** The directory is doubled, in memory; its old space is released at the end of the split. */
    method GrowDirectory(ghost key: Key, young: seq<nat>, bits: nat, ghost n: nat) returns (ok: bool, oldAdr: nat,
        oldSize: nat)
      requires Steady(Among(young), NOTHING, {}) && Placed(key) && n !in olds
      requires Lineup(cache.elems, cache.lru, cache.buckets, young, NewBucket(bits, slots)) && |young| < |cache.lru|
      requires PrefixOf(cache.lru[|young| + 1..], Dirty(cache.elems))
      modifies this`dirAdr, this`dirBits, this`dir, this`bucketDir, this`olds, this`health, space, cache`elems,
               cache`buckets
      ensures ok <==> old(dirBits) < MAX_DIR_BITS
      ensures !ok ==> health == NeedsRecovery && cache.orphaned == old(cache.orphaned)
      ensures ok ==> Steady(Among(young), NOTHING, {}) && Placed(key) && space.headerChanged && health == old(health)
      ensures ok ==> dirBits == old(dirBits) + 1 && olds == old(olds)[n := Region(oldAdr, oldSize)]
      ensures ok ==> dir == Doubled(old(dir))
      ensures ok ==> Lineup(cache.elems, cache.lru, cache.buckets, young, NewBucket(bits, slots))
      ensures ok ==> PrefixOf(cache.lru[|young| + 1..], Dirty(cache.elems))
      ensures ok ==> old(cache.Cur()) == cache.Cur()
      ensures ok ==>
                var b, b' := old(cache.buckets)[cache.Cur()], cache.buckets[cache.Cur()];
                b' == b.(avail := b'.avail)
      ensures ok ==> cache.buckets == old(cache.buckets)[cache.Cur() := cache.buckets[cache.Cur()]]
    {
      hide World.Sound, State.Ok, Dirty, Steady, PrefixOf, Listed, Chained, DirHeld, HeaderHeld, CurrentAvailOnly,
           Lineup, Painted, Hash, LookUp, Pow2;
      ghost var elems0, buckets0 := cache.elems, cache.buckets;
      SoundNow(Among(young), NOTHING, {});
      DirLimit(Now(), Among(young), NOTHING);
      var dirSize := |dir| * SIZEOF_OFF_T;
      if dirSize >= MAX_DIR_HALF {
        health := NeedsRecovery;
        return false, 0, 0;
      }
      HeadSame(Among(young), NOTHING, {});
      var adr := AllocCurrent(2 * dirSize, Among(young), {});
      HeadSame(Among(young), Region(adr, 2 * dirSize), {});
      LineupKept(elems0, cache.elems, cache.lru, buckets0, cache.buckets, young, NewBucket(bits, slots));
      SameTable(elems0, cache.elems, cache.lru, buckets0, cache.buckets);
      TailKept(elems0, cache.elems, cache.lru, |young| + 1, buckets0, cache.buckets);
      var newDir := Double(dir);
      oldAdr, oldSize := dirAdr, dirSize;
      SoundNow(Among(young), Region(adr, 2 * dirSize), {});
      GrownLookup(Now(), Among(young), Region(adr, 2 * dirSize), key);
      MoveDirectory(adr, newDir, Among(young), n, Region(oldAdr, oldSize));
      ok := true;
    }

    /** The header gets to know the new directory. */
    method MoveDirectory(adr: nat, newDir: seq<nat>, ghost young: set<nat>, ghost n: nat, ghost was: Region)
      requires was == Now().Account().dir && n !in olds && newDir == Doubled(dir) && dirBits < MAX_DIR_BITS
      requires Steady(young, Region(adr, 2 * was.len), {})
      modifies this`dirAdr, this`dirBits, this`dir, this`olds, this`bucketDir, space`owner, space`headerChanged
      ensures bucketDir == 2 * old(bucketDir)
      ensures Steady(young, NOTHING, {}) && space.headerChanged && dirAdr == adr && dir == newDir
      ensures dirBits == old(dirBits) + 1
      ensures olds == old(olds)[n := was]
    {
      hide World.Sound, PairsOk, Painted, Pow2, GrownOwners, Listed, LaidOut, Doubled, OutsideOnly, World.Account,
           BucketCache.Coherent, FileSpace.Valid, BucketCache.Shaped, Allotted;
      ghost var w, r := Now(), Region(adr, 2 * was.len);
      SteadyFacts(young, r);
      HeadSame(young, r, {});
      DirectoryGrown(w, young, r, n);
      Reown(GrownOwners(w, r, n), {cache.Cur()} + young, {});
      olds := olds[n := was];
      dirAdr, dir, dirBits := adr, newDir, dirBits + 1;
      space.headerChanged := true;
      bucketDir := 2 * bucketDir;
    }

    /** The current bucket's elements and free space are divided between the two new buckets. */
    method ShareOut(key: Key, adr0: nat, adr1: nat, bits: nat)
      requires bits <= dirBits && Paired(adr0, adr1, bits) && Splitting(key, bits)
      modifies this`dir, this`bucketDir, this`directoryChanged, space, cache`elems, cache`lru, cache`table,
               cache`buckets
      ensures directoryChanged && ShapeNow() == Deepened(old(ShapeBut(adr0, adr1)), Hash(key))
      ensures old(HeaderWritten()) ==> HeaderWritten()
      ensures Placed(key) && cache.buckets[cache.Cur()].bits == bits
      ensures Steady({}, NOTHING, {}) && PrefixOf(cache.lru[1..], Dirty(cache.elems))
    {
      hide Parted, ShapeOf, Deepened, Depths, World.Sound, State.Ok, Steady, Listed, Chained, Pow2, Hash, LookUp,
           PrefixOf, Dirty, Lineup, Collected, CurrentAvailOnly, DirHeld, HeaderHeld;
      ghost var elems0, buckets0 := cache.elems, cache.buckets;
      HeadSame(Among([adr0, adr1]), NOTHING, {});
      SoundNow(Among([adr0, adr1]), NOTHING, {});
      FullTable(Now(), Among([adr0, adr1]), cache.Cur());
      var t0, c0, t1, c1 := Redistribute(cache.elems[cache.lru[0]].bucket.table, bits);
      var adr := AllocCurrent(space.blockSize, Among([adr0, adr1]), {});
      HeadSame(Among([adr0, adr1]), Region(adr, space.blockSize), {});
      LineupKept(elems0, cache.elems, cache.lru, buckets0, cache.buckets, [adr0, adr1], NewBucket(bits, slots));
      SameTable(elems0, cache.elems, cache.lru, buckets0, cache.buckets);
      DepthsBut(buckets0, cache.buckets, cache.Cur(), cache.buckets[cache.Cur()], {adr0, adr1});
      TailKept(elems0, cache.elems, cache.lru, 3, buckets0, cache.buckets);
      HashBound(key);
      assert Among([adr0, adr1]) == {adr0, adr1};
      ghost var w, i := Now(), bucketDir;
      SoundNow({adr0, adr1}, Region(adr, space.blockSize), {});
      Replace(key, adr, adr0, adr1, bits, t0, c0, t1, c1);
      SplitShape(w, Region(adr, space.blockSize), i, adr0, adr1, dir, cache.buckets, Hash(key));
    }

    /** The directory run and the free space are divided, and the old bucket is replaced. */
    method Replace(key: Key, adr: nat, adr0: nat, adr1: nat, bits: nat, t0: seq<Slot>, c0: nat, t1: seq<Slot>, c1: nat)
      requires Steady(Among([adr0, adr1]), Region(adr, space.blockSize), {}) && Placed(key) && adr0 != adr1
      requires adr0 > 0 && adr1 > 0
      requires Lineup(cache.elems, cache.lru, cache.buckets, [adr0, adr1], NewBucket(bits, slots)) && |cache.lru| > 2
      requires PrefixOf(cache.lru[3..], Dirty(cache.elems))
      requires bits == cache.buckets[cache.Cur()].bits + 1 && bits <= dirBits <= HASH_BITS
      requires |cache.buckets[cache.Cur()].table| == slots
      requires Collected(cache.buckets[cache.Cur()].table, slots, bits, 0, t0, c0)
      requires Collected(cache.buckets[cache.Cur()].table, slots, bits, 1, t1, c1)
      modifies this`dir, this`bucketDir, this`directoryChanged, space`owner, cache`elems, cache`lru, cache`table,
               cache`buckets
      ensures Parted(old(dir), old(dirBits), old(cache.buckets), old(bucketDir), adr0, adr1, dir, cache.buckets)
      ensures Steady({}, NOTHING, {}) && Placed(key) && PrefixOf(cache.lru[1..], Dirty(cache.elems)) && directoryChanged
      ensures cache.buckets[cache.Cur()].bits == bits && |dir| == |old(dir)|
      ensures var n := space.blockSize;
              Endowed(old(cache.buckets[cache.Cur()].avail), Avail(n, adr), Avail(n, old(cache.Cur())),
                  cache.Cur() == adr0, cache.buckets[adr0].avail, cache.buckets[adr1].avail, space.coalesce)
    {
      hide Parted, ByNextBit, World.Sound, State.Ok, Steady, Listed, Chained, Pow2, Hash, LookUp, PrefixOf, Dirty,
           Lineup, Collected, Half, Halves, BucketOk, BucketDir, Tidy, Cover, OutsideOnly, SharedOwners, SplitWorld,
           Endowed, Shared;
      ghost var w := Now();
      HeadSame(Among([adr0, adr1]), Region(adr, space.blockSize), {});
      SteadyFacts(Among([adr0, adr1]), Region(adr, space.blockSize));
      assert Among([adr0, adr1]) == {adr0, adr1};
      LineupPair(cache.elems, cache.lru, cache.buckets, adr0, adr1, NewBucket(bits, slots));
      var b, cur := cache.elems[cache.lru[0]].bucket, cache.elems[cache.lru[0]].adr;
      SplitStart(w, {adr0, adr1}, Region(adr, space.blockSize), cur, key);
      var d;
      ghost var start0, start1, end;
      d, start0, start1, end := Divide(dir, bucketDir, dirBits, bits, adr0, adr1);
      SplitLookup(w, {adr0, adr1}, Region(adr, space.blockSize), cur, bucketDir, bits, start0, start1, end, adr0,
          adr1, Hash(key));
      var index := BucketDir(Hash(key), dirBits);
      var av0, av1 := ShareAvail(b.avail, Avail(space.blockSize, adr), Avail(space.blockSize, cur), d[index] == adr0,
          space.coalesce);
      var b0, b1 := Bucket(av0, bits, c0, t0), Bucket(av1, bits, c1, t1);
      CollectedHalf(b, slots, bits, 0, t0, c0, av0);
      CollectedHalf(b, slots, bits, 1, t1, c1, av1);
      SplitReady(w, adr, cur, bucketDir, bits, start0, start1, end, adr0, adr1, b0, b1);
      PartedBy(w.dir, dirBits, w.buckets, bucketDir, adr0, adr1, d, b0, b1);
      Commit(key, adr0, adr1, b0, b1, d, index, SharedOwners(space.owner, av0, av1, adr0, adr1),
          Region(adr, space.blockSize), NewBucket(bits, slots));
    }

    lemma SteadyFacts(young: set<nat>, spare: Region)
      requires Steady(young, spare, {})
      ensures Now().Sound(young, spare, {}) && Allotted(space.owner, cache.buckets, space.blockSize)
      ensures space.blockSize >= MIN_BLOCK_SIZE && slots > 0 && Painted(space.owner, 0, space.blockSize, FileHeader)
    {
      hide World.Sound, PairsOk, Stored, Current, Linked, AllLinked, LinkedLive, Chained, TableOk, StackOk, NoStray;
    }

    /** The two new buckets take the place of the current one, in the directory, the cache and
        the books; `own` says who owns what from now on. */
    method Commit(ghost key: Key, adr0: nat, adr1: nat, b0: Bucket, b1: Bucket, d: seq<nat>, index: nat,
                  ghost own: seq<Owner>, ghost spare: Region, ghost nb: Bucket)
      requires Steady({adr0, adr1}, spare, {}) && adr0 != adr1
      requires Lineup(cache.elems, cache.lru, cache.buckets, [adr0, adr1], nb)
      requires PrefixOf(cache.lru[3..], Dirty(cache.elems))
      requires SplitWorld(Now(), own, cache.Cur(), d, adr0, adr1, b0, b1).Sound({}, NOTHING, {})
      requires OutsideOnly(space.owner, own)
      requires Allotted(own, (cache.buckets - {cache.Cur()})[adr0 := b0][adr1 := b1], space.blockSize)
      requires index < |d| && d[index] in {adr0, adr1} && LookUp(d, dirBits, Hash(key)) == d[index]
      modifies this`dir, this`bucketDir, this`directoryChanged, space`owner, cache`elems, cache`lru, cache`table,
               cache`buckets
      ensures Steady({}, NOTHING, {}) && Placed(key) && PrefixOf(cache.lru[1..], Dirty(cache.elems)) && directoryChanged
      ensures dir == d && cache.buckets == (old(cache.buckets) - {old(cache.Cur())})[adr0 := b0][adr1 := b1]
      ensures cache.Cur() == d[index]
    {
      hide World.Sound, PairsOk, Painted, Pow2, Hash, LookUp, PrefixOf, Dirty, Lineup, OutsideOnly, Allotted,
           BucketCache.Coherent, FileSpace.Valid;
      CommitCache(adr0, adr1, b0, b1, d[index] == adr0, nb);
      Reown(own, {cache.Cur()} + {}, {});
      dir, bucketDir, directoryChanged := d, index, true;
    }

    lemma CoherentWithout(cur: nat, open: set<nat>)
      requires Listed(cache.elems, cache.lru) && cache.Coherent({cur}, {}) && cur !in cache.buckets
      ensures cache.Coherent(open, {})
    {
      hide Stored, Current, Allotted, Linked, AllLinked, LinkedLive, Leading, Chained, Listed;
      StoredWithout(cache.space.file, cache.elems, cache.buckets, {cur}, open, cache.bucketSize);
    }

    method CommitCache(adr0: nat, adr1: nat, b0: Bucket, b1: Bucket, first: bool, ghost nb: Bucket)
      requires cache.Shaped() && |cache.lru| > 0 && cache.Coherent({cache.Cur()} + {adr0, adr1}, {})
      requires cache.Cur() !in {adr0, adr1}
      requires PairsOk(cache.elems, cache.lru, cache.buckets, data, loc, {cache.Cur()})
      requires adr0 != adr1 && Lineup(cache.elems, cache.lru, cache.buckets, [adr0, adr1], nb)
      requires PrefixOf(cache.lru[3..], Dirty(cache.elems))
      modifies cache`elems, cache`lru, cache`table, cache`buckets
      ensures cache.Shaped() && |cache.lru| > 1 && cache.Cur() == (if first then adr0 else adr1)
      ensures cache.Coherent({cache.Cur()} + {}, {})
      ensures cache.buckets == (old(cache.buckets) - {old(cache.Cur())})[adr0 := b0][adr1 := b1]
      ensures PairsOk(cache.elems, cache.lru, cache.buckets, data, loc, {cache.Cur()})
      ensures PrefixOf(cache.lru[1..], Dirty(cache.elems))
    {
      hide BucketCache.Coherent, Chained, PairsOk, Pow2, PrefixOf, Dirty, Lineup, Distinct;
      ghost var cur, elems0, lru0 := cache.Cur(), cache.elems, cache.lru;
      LineupPair(elems0, lru0, cache.buckets, adr0, adr1, nb);
      assert ({cur} + {adr0, adr1}) - {adr0, adr1} == {cur};
      cache.Supplant(b0, b1, first, {cur} + {adr0, adr1});
      assert Supplanted(elems0, lru0, cache.elems, cache.lru);
      hide Supplanted, Listed;
      CoherentWithout(cur, {cache.Cur()} + {});
      SupplantedPairs(elems0, lru0, cache.elems, cache.lru, old(cache.buckets), cache.buckets, data, loc, cache.Cur());
      SupplantedPrefix(elems0, lru0, cache.elems, cache.lru);
    }

    /** Replacing the value of a key that is there. */
    method ReplaceCurrent(key: Key, content: Value, elemLoc: nat, ghost t: seq<Slot>)
      requires Valid() && Placed(key) && Table(t) && Located(key, t, elemLoc)
      modifies this`recs, this`data, this`loc, this`directoryChanged, cache`elems, cache`buckets, space
      ensures health == Good && data == old(data)[key := content] && SameDepths(old(cache.buckets), cache.buckets)
      ensures |content| == |old(data)[key]| ==> loc == old(loc) && space.owner == old(space.owner)
      ensures Valid()
    {
      hide SameDepths, World.Sound, Dirty, Valid, Hash, LookUp, Steady, Probeable, PrefixOf, Listed, Chained,
           DirWritten, HeaderWritten, CurrentAvailOnly;
      BeginUpdate(key);
      BoundaryFacts(key);
      NothingDirty(cache.lru[1..]);
      KeySlot(key, t);
      var elem := cache.elems[cache.lru[0]].bucket.table[elemLoc];
      var freeSize, newSize := elem.keySize + elem.dataSize, |key| + |content|;
      var adr := elem.ptr;
      if freeSize != newSize {
        adr := MoveRecord(key, adr, freeSize, newSize);
      } else {
        LoseKey(key);
        AvailOnlyRefl(cache.elems, cache.lru, cache.buckets);
      }
      SameTable(old(cache.elems), cache.elems, cache.lru, old(cache.buckets), cache.buckets);
      AvailDepths(old(cache.elems), cache.elems, cache.lru, old(cache.buckets), cache.buckets);
      ListedNow({}, NOTHING, {key});
      ghost var buckets1 := cache.buckets;
      ReplaceSlot(key, content, elemLoc, adr);
      SameDepthsTrans(old(cache.buckets), buckets1, cache.buckets);
    }

    /** The old record's space is released, and space for the new one allocated. */
    method MoveRecord(ghost key: Key, oldAdr: nat, oldSize: nat, n: nat) returns (adr: nat)
      requires Steady({}, NOTHING, {}) && key in recs && recs[key] == Region(oldAdr, oldSize)
      requires PrefixOf(cache.lru[1..], Dirty(cache.elems)) && DirWritten() && HeaderWritten()
      modifies this`recs, cache`elems, cache`buckets, space
      ensures Steady({}, NOTHING, {key}) && recs == old(recs)[key := Region(adr, n)]
      ensures PrefixOf(cache.lru[1..], Dirty(cache.elems)) && DirWritten() && HeaderWritten()
      ensures CurrentAvailOnly(old(cache.elems), cache.elems, cache.lru, old(cache.buckets), cache.buckets)
    {
      hide World.Sound, Dirty, PrefixOf, Listed, Chained, Steady, DirHeld, HeaderHeld, CurrentAvailOnly;
      ghost var elems0, buckets0 := cache.elems, cache.buckets;
      GiveUpRecord(key, {}, {});
      assert {} + {key} == {key};
      ListedNow({}, Region(oldAdr, oldSize), {key});
      ReleaseCurrent(oldAdr, oldSize, {}, {key});
      TailKept(elems0, cache.elems, cache.lru, 1, buckets0, cache.buckets);
      ghost var elems1, buckets1 := cache.elems, cache.buckets;
      ListedNow({}, NOTHING, {key});
      adr := AllocCurrent(n, {}, {key});
      TailKept(elems1, cache.elems, cache.lru, 1, buckets1, cache.buckets);
      AvailOnlyTrans(elems0, elems1, cache.elems, cache.lru, buckets0, buckets1, cache.buckets);
      GrantStored(key, Region(adr, n));
    }

    /** The spare region becomes the record of a key that had to give up its own. */
    ghost method GrantStored(key: Key, r: Region)
      requires Steady({}, r, {key}) && key !in recs
      modifies this`recs, space`owner
      ensures Steady({}, NOTHING, {key}) && recs == old(recs)[key := r]
    {
      GrantRecord(key, {}, r, {key});
    }

    lemma LoseKey(key: Key)
      requires Steady({}, NOTHING, {})
      ensures Steady({}, NOTHING, {key})
    {
      hide State.Ok, Balanced, Tabs, Catalog.Ok, Current, Stored, Allotted, Linked, AllLinked, LinkedLive, Leading,
           Chained, PairsOk, Settled, Distinct;
    }

    /** The slot of a key that is there takes the new sizes and address. */
    method ReplaceSlot(key: Key, content: Value, elemLoc: nat, adr: nat)
      requires Steady({}, NOTHING, {key}) && Placed(key) && key in data && key in loc
      requires Describes(loc[key], key, data[key])
      requires recs.Keys == data.Keys && recs[key] == Region(adr, |key| + |content|)
      requires elemLoc < |cache.buckets[cache.Cur()].table| && cache.buckets[cache.Cur()].table[elemLoc] == loc[key]
      requires PrefixOf(cache.lru[1..], Dirty(cache.elems)) && health == Good && olds == map[] && DirWritten()
      requires HeaderWritten()
      modifies this`data, this`loc, this`directoryChanged, cache`elems, cache`buckets, space`file, space`headerChanged
      ensures Valid() && data == old(data)[key := content] && SameDepths(old(cache.buckets), cache.buckets)
      ensures loc == old(loc)[key := old(loc)[key].(ptr := adr, keySize := |key|, dataSize := |content|)]
    {
      hide DatabaseFile.DirWritten, DatabaseFile.HeaderWritten, SameDepths, World.Sound, Dirty, Valid, Hash, LookUp,
           Steady, PrefixOf, Listed, Chained;
      HeadSame({}, NOTHING, {key});
      ghost var cur := cache.Cur();
      var b := cache.elems[cache.lru[0]].bucket;
      var slot := b.table[elemLoc].(ptr := adr, keySize := |key|, dataSize := |content|);
      SoundNow({}, NOTHING, {key});
      SlotRenewed(Now(), cur, key, content, elemLoc, slot);
      UpdateCurrent(b.(table := b.table[elemLoc := slot]), false, key, data[key := content], loc[key := slot], {key});
      DepthsKept(old(cache.buckets), cache.buckets, cur, cache.buckets[cur]);
      HeadOnly(old(cache.elems), cache.lru, cache.elems, 1);
      Complete(key, content, adr);
    }

    lemma HeadSame(young: set<nat>, spare: Region, lost: set<Key>)
      requires Steady(young, spare, lost)
      ensures cache.Shaped() && |cache.lru| > 0 && cache.lru[0] in cache.elems && Listed(cache.elems, cache.lru)
      ensures cache.Cur() in cache.buckets && cache.Cur() !in young
      ensures cache.elems[cache.lru[0]].bucket == cache.buckets[cache.Cur()]
    {
      hide World.Sound, State.Ok, PairsOk;
      CurrentBucket(young, spare, lost);
    }

    lemma SoundNow(young: set<nat>, spare: Region, lost: set<Key>)
      requires Steady(young, spare, lost)
      ensures Now().Sound(young, spare, lost) && slots > 0 && dirBits <= MAX_DIR_BITS
    {
      hide World.Sound, State.Ok, PairsOk;
    }

    /** gdbm_delete */
    method Delete(key: Key) returns (rc: int)
      requires health != Dead && (health == Good ==> Valid())
      modifies this, cache, space
      ensures old(cache.orphaned) ==> cache.orphaned
      ensures old(health) != Good ==> rc == -1 && health == old(health) && data == old(data)
      ensures old(health) == Good ==>
                if health == Good then Valid() else health == Dead && cache.auto && old(cache.orphaned)
      ensures cache.auto && !old(cache.orphaned) ==> !cache.orphaned
      ensures health != Dead ==> cache.bits >= old(cache.bits)
      ensures health == Good ==> ShapeNow() == old(ShapeNow())
      ensures old(health) == Good && health == Good ==> rc == (if key in old(data) then 0 else -1)
      ensures old(health) == Good && health == Good ==> data == old(data) - {key}
    {
      hide DatabaseFile.Placed, DatabaseFile.Table, ShapeOf, Valid, Hash, LookUp;
      if health != Good {
        return -1;
      }
      var ok, elemLoc, value;
      ghost var t;
      ok, elemLoc, value, t := FindKey(key);
      if !ok || elemLoc == -1 {
        return -1;
      }
      RemoveCurrent(key, elemLoc, t);
      rc := 0;
    }

    method RemoveCurrent(key: Key, elemLoc: nat, ghost t: seq<Slot>)
      requires Valid() && Placed(key) && Table(t) && Located(key, t, elemLoc)
      modifies this`recs, this`data, this`loc, this`directoryChanged, cache`elems, cache`buckets, space
      ensures health == Good && data == old(data) - {key} && SameDepths(old(cache.buckets), cache.buckets)
      ensures Valid()
    {
      hide DatabaseFile.DirWritten, DatabaseFile.HeaderWritten, SameDepths, World.Sound, Dirty, Valid, Hash, LookUp,
           Steady, Probeable, PrefixOf, Listed, Chained;
      BeginUpdate(key);
      BoundaryFacts(key);
      NothingDirty(cache.lru[1..]);
      var bucket := cache.elems[cache.lru[0]].bucket;
      var elem := bucket.table[elemLoc];
      KeySlot(key, t);
      ghost var t0 := CurrentTable();
      var table := WithoutSlot(bucket.table, elemLoc);
      KeyRemoved(Now(), cache.Cur(), key, table);
      ghost var cur, buckets0 := cache.Cur(), cache.buckets;
      UpdateCurrent(bucket.(table := table, count := bucket.count - 1), false, key, data - {key}, loc - {key}, {});
      DepthsKept(buckets0, cache.buckets, cur, cache.buckets[cur]);
      HeadOnly(old(cache.elems), cache.lru, cache.elems, 1);
      ghost var buckets1 := cache.buckets;
      DisposeRecord(key, elem.ptr, elem.keySize + elem.dataSize);
      SameDepthsTrans(buckets0, buckets1, cache.buckets);
    }

    /** The end of gdbm_delete: the record's space is released. */
    method DisposeRecord(ghost key: Key, adr: nat, n: nat)
      requires Steady({}, NOTHING, {}) && key !in data && key in recs && recs[key] == Region(adr, n)
      requires recs.Keys == data.Keys + {key}
      requires PrefixOf(cache.lru[1..], Dirty(cache.elems))
      requires health == Good && olds == map[] && DirWritten() && HeaderWritten()
      modifies this`recs, this`directoryChanged, cache`elems, cache`buckets, space
      ensures Valid() && SameDepths(old(cache.buckets), cache.buckets)
    {
      hide SameDepths, World.Sound, Dirty, Valid, PrefixOf, Listed, Chained, Steady, DirHeld, HeaderHeld,
           CurrentAvailOnly;
      GiveUpRecord(key, {}, {});
      assert {} + {key} == {key};
      ghost var elems0 := cache.elems;
      HeadSame({}, Region(adr, n), {key});
      ReleaseCurrent(adr, n, {}, {key});
      AvailDepths(elems0, cache.elems, cache.lru, old(cache.buckets), cache.buckets);
      TailKept(elems0, cache.elems, cache.lru, 1, old(cache.buckets), cache.buckets);
      NothingLost({key}, NOTHING);
      ForgetPair();
      Finish();
    }

    lemma ListedNow(young: set<nat>, spare: Region, lost: set<Key>)
      requires Steady(young, spare, lost)
      ensures cache.Shaped() && Listed(cache.elems, cache.lru) && |cache.lru| > 0
    {
      hide World.Sound, State.Ok, PairsOk;
    }

    /** Keys that are not stored cannot be lost. */
    lemma NothingLost(lost: set<Key>, spare: Region)
      requires Steady({}, spare, lost) && forall k :: k in lost ==> k !in data
      ensures Steady({}, spare, {})
    {
      hide World.Sound, State.Ok, Stored, Current, Allotted, Linked, AllLinked, LinkedLive, Leading, Chained, PairsOk,
           Distinct;
      FoundAgain(Now(), lost, spare);
    }

    /** The key/data pair cached with the current bucket is dropped. */
    method ForgetPair()
      requires Steady({}, NOTHING, {}) && PrefixOf(cache.lru[1..], Dirty(cache.elems))
      modifies cache`elems
      ensures Steady({}, NOTHING, {}) && PrefixOf(cache.lru[1..], Dirty(cache.elems))
    {
      hide World.Sound, State.Ok, Stored, Current, Allotted, Linked, AllLinked, LinkedLive, Chained, Distinct, Dirty,
           PrefixOf, PairsOk, Leading;
      ghost var cur := cache.Cur();
      PairDropped(cache.elems, cache.lru, cache.buckets, data, loc, NoData);
      cache.SetData(NoData, {cur} + {});
    }

    /** What holds between operations, seen at the start of an update. */
    lemma BoundaryFacts(key: Key)
      requires Valid()
      ensures health == Good && olds == map[] && recs.Keys == data.Keys && DirWritten() && HeaderWritten()
      ensures Dirty(cache.elems) == {}
      ensures Now().Sound({}, NOTHING, {})
      ensures key in data ==> key in loc && key in recs && recs[key] == Extent(loc[key])
    {
      hide State.Ok, Balanced, Catalog.Ok, Tabs, Stored, Current, Allotted, Linked, AllLinked, LinkedLive, Leading,
           Chained, DirHeld, HeaderHeld, PairsOk;
      if key in data {
        assert RecordOk(space.file, recs, data, loc, key);
      }
    }

    /** An update of the current bucket begins. */
    lemma BeginUpdate(key: Key)
      requires Valid() && Placed(key)
      ensures Steady({}, NOTHING, {})
    {
      hide State.Ok, World.Sound, Current, Allotted, Linked, AllLinked, LinkedLive, Leading, Chained, DirHeld,
           HeaderHeld, Settled, Distinct, Dirty, Hash, LookUp, Pow2;
    }

    /** _gdbm_end_update: changed buckets, then the directory, then the header. */
    method EndUpdate()
      requires Steady({}, NOTHING, {}) && cache.elems[cache.lru[0]].changed && PrefixOf(cache.lru, Dirty(cache.elems))
      requires health == Good && olds == map[] && recs.Keys == data.Keys && DirWritten() && HeaderWritten()
      modifies this`directoryChanged, cache`elems, space`file, space`headerChanged
      ensures Valid()
    {
      hide Flushed;
      FlushBuckets();
      if directoryChanged {
        WriteDirectory();
      }
      if space.headerChanged {
        WriteHeader();
      }
    }

    /** _gdbm_cache_flush, at the end of an update. */
    method FlushBuckets()
      requires Steady({}, NOTHING, {}) && cache.elems[cache.lru[0]].changed && PrefixOf(cache.lru, Dirty(cache.elems))
      requires health == Good && olds == map[] && recs.Keys == data.Keys && DirWritten() && HeaderWritten()
      modifies cache`elems, space`file
      ensures Flushed()
    {
      hide State.Ok, World.Sound, OnlyBuckets, Stored, Current, Allotted, Linked, AllLinked, LinkedLive, Leading,
           Chained, DirHeld, HeaderHeld, PairsOk, Settled, PrefixOf, Distinct, Dirty, AdrHash, Pow2;
      ghost var w, elems0 := Now(), cache.elems;
      AvailNow(space.Now(0, []), space.blockSize, space.capacity);
      assert {cache.Cur()} + {} == {cache.Cur()};
      ClosedByFlag(space.file, cache.elems, cache.buckets, space.blockSize, cache.lru[0]);
      var n := cache.Flush(cache.lru, {}, {});
      WritesKept(w, space.file, space.Now(0, []).(file := w.file), space.blockSize, space.capacity, {}, NOTHING, {});
      AllClean(elems0, cache.lru, cache.elems, n);
      PairsFlushed(elems0, cache.lru, n, cache.elems, cache.buckets, data, loc);
    }

    method WriteDirectory()
      requires Flushed()
      modifies this`directoryChanged, space`file
      ensures Flushed() && !directoryChanged
    {
      hide State.Ok, World.Sound, Stored, Current, Allotted, Linked, AllLinked, LinkedLive, Leading, Chained,
           HeaderHeld, PairsOk, Settled, PrefixOf, Distinct, Dirty, AdrHash, Pow2, Painted;
      ghost var w := Now();
      DirOwned(w);
      var image := ImageCells(DirImage(dir), |dir| * SIZEOF_OFF_T);
      RegionWritten(space.owner, space.file, Region(dirAdr, |dir| * SIZEOF_OFF_T), Owner.Directory, image);
      OwnerWrote(w, Write(space.file, dirAdr, image), space.Now(0, []), Owner.Directory, cache.elems, {}, {}, NOTHING,
          {}, space.capacity);
      space.file := Write(space.file, dirAdr, image);
      directoryChanged := false;
    }

    /** write_header, followed by _gdbm_file_extend. */
    method WriteHeader()
      requires Flushed() && !directoryChanged && space.headerChanged
      modifies space`file, space`headerChanged
      ensures Valid() && |space.file| == space.nextBlock
    {
      hide Clonable, Valid;
      WriteHeaderBlock();
      ExtendFile();
    }

    /** write_header; at its end a snapshot is taken, if they are wanted. */
    method WriteHeaderBlock()
      requires Flushed() && !directoryChanged && space.headerChanged
      modifies space`file
      ensures Clonable() && space.headerChanged
    {
      hide State.Ok, World.Sound, Stored, Current, Allotted, Linked, AllLinked, LinkedLive, Leading, Chained, DirHeld,
           PairsOk, Settled, PrefixOf, Distinct, Dirty, AdrHash, Pow2, Painted;
      ghost var w := Now();
      AvailNow(space.Now(0, []), space.blockSize, space.capacity);
      var header := Header(extended, space.blockSize, dirAdr, |dir| * SIZEOF_OFF_T, dirBits, slots, space.nextBlock,
          AvailBlock(space.capacity, space.availNext, space.avail));
      var image := ImageCells(HeaderImage(header), space.blockSize);
      var file := Write(space.file, 0, image);
      RegionWritten(space.owner, space.file, Region(0, space.blockSize), FileHeader, image);
      OwnerWrote(w, file, space.Now(0, []), FileHeader, cache.elems, {}, {}, NOTHING, {}, space.capacity);
      space.file := file;
    }

    /** _gdbm_file_extend */
    method ExtendFile()
      requires Clonable() && space.headerChanged
      modifies space`file, space`headerChanged
      ensures Valid() && |space.file| == space.nextBlock
    {
      hide State.Ok, World.Sound, Stored, Current, Allotted, Linked, AllLinked, LinkedLive, Leading, Chained, DirHeld,
           PairsOk, Settled, PrefixOf, Distinct, Dirty, AdrHash, Pow2, Painted;
      ghost var w := Now();
      AvailNow(space.Now(0, []), space.blockSize, space.capacity);
      var file := Extend(space.file, space.nextBlock);
      HeaderOwned(space.Now(0, []), space.blockSize, space.capacity);
      OwnerWrote(w, file, space.Now(0, []), FileHeader, cache.elems, {}, {}, NOTHING, {}, space.capacity);
      OwnerWrote(w, file, space.Now(0, []), Owner.Directory, cache.elems, {}, {}, NOTHING, {}, space.capacity);
      space.file := file;
      space.headerChanged := false;
    }

    lemma HeadPainted(young: set<nat>, spare: Region, lost: set<Key>)
      requires Steady(young, spare, lost)
      ensures Painted(space.owner, cache.Cur(), cache.bucketSize, BucketAt(cache.Cur()))
    {
      hide State.Ok, World.Sound, Stored, Current, Linked, AllLinked, LinkedLive, Leading, Chained, PairsOk;
    }

    lemma CurrentBucket(young: set<nat>, spare: Region, lost: set<Key>)
      requires Steady(young, spare, lost)
      ensures cache.elems[cache.lru[0]].bucket == cache.buckets[cache.Cur()]
    {
      hide State.Ok, World.Sound, Stored, Allotted, Linked, AllLinked, LinkedLive, Leading, Chained;
      FirstLeads(cache.elems, cache.lru, 0);
    }
  }
}
