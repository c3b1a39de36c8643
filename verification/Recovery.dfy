/**
 The consistency check and the copying loop of gdbm_recover (src/recover.c).
 */
module Recovery {
  import opened Bits
  import opened Layout
  import opened Sequences
  import opened HashTable
  import opened Directory
  import opened Cache
  import opened Content
  import opened Growth
  import opened Filling
  import opened Traversal
  import opened Integrity
  import opened Database
  import opened Reopen
  import opened Sequential

  /** check_db: it finds something wrong exactly if the directory is the last thing in the file. */
  method CheckDb(db: DatabaseFile) returns (ok: bool, sound: bool)
    requires db.Valid()
    modifies db`bucketDir, db`health, db.cache, db.space`file
    ensures db.cache.buckets == old(db.cache.buckets) && (db.cache.auto ==> db.cache.orphaned == old(db.cache.orphaned))
    ensures !ok ==> db.health == Dead && db.cache.auto && db.cache.orphaned
    ensures ok ==> db.Valid() && (sound <==> db.dirAdr + |db.dir| * SIZEOF_OFF_T < |old(db.space.file)|)
  {
    hide DatabaseFile.Valid, Catalog.Ok, Hash, Pow2, LookUp, Listed, Chained, Probeable;
    ok := true;
    sound := CheckHeader(db);
    if !sound {
      return;
    }
    var i := 0;
    while i < |db.dir|
      invariant i <= |db.dir| && db.Valid() && db.cache.buckets == old(db.cache.buckets)
      invariant db.cache.auto ==> db.cache.orphaned == old(db.cache.orphaned)
    {
      ok := db.GetBucket(i);
      if !ok {
        return false, false;
      }
      sound := CheckBucket(db);
      if !sound {
        return true, false;
      }
      i := NextBucketDir(db.dir, i);
    }
    sound := true;
  }

  /** _gdbm_validate_header */
  method CheckHeader(db: DatabaseFile) returns (sound: bool)
    requires db.Valid()
    ensures sound <==> db.dirAdr + |db.dir| * SIZEOF_OFF_T < |db.space.file|
  {
    hide DatabaseFile.Valid, Pow2, HeaderHeld, DirHeld, TableValid, Acceptable, LaidOut;
    db.CanBeCloned();
    db.FileFacts();
    AcceptableNow(db);
    var header := Header(db.extended, db.space.blockSize, db.dirAdr, |db.dir| * SIZEOF_OFF_T, db.dirBits, db.slots,
        db.space.nextBlock,
                         AvailBlock(db.space.capacity, db.space.availNext, db.space.avail));
    CapacityFits(header);
    var rc, tooLong := ValidateHeader(header, |db.space.file|);
    if rc != Opened || tooLong {
      return false;
    }
    if !AvailBlockValid(header.avail, header.blockSize - FixedSize(header.extended), header.blockSize,
        header.nextBlock) {
      return false;
    }
    sound := true;
  }

  lemma AcceptableNow(db: DatabaseFile)
    requires LaidOut(db.space.blockSize, db.firstBits, db.slots, db.space.capacity, db.extended)
    requires db.firstBits <= db.dirBits <= MAX_DIR_BITS
    requires |db.dir| == Pow2(db.dirBits) && db.dirAdr > 0
    ensures Acceptable(db.CurrentHeader())
  {
    hide LaidOut, Pow2;
  }

  /** Every element of the current bucket is read and compared with its slot. */
  method CheckBucket(db: DatabaseFile) returns (sound: bool)
    requires db.Valid() && db.Here()
    modifies db.cache`elems
    ensures db.Valid() && sound
  {
    hide DatabaseFile.Valid, Catalog.Ok, Hash, Pow2, LookUp, Listed, Chained, Probeable;
    ghost var t := db.CurrentTable();
    db.CountBound();
    if db.cache.elems[db.cache.lru[0]].bucket.count > db.slots {
      return false;
    }
    var i := 0;
    while i < db.slots
      invariant i <= db.slots && db.Valid() && db.Here() && db.Table(t) && |t| == db.slots
    {
      var slot := db.cache.elems[db.cache.lru[0]].bucket.table[i];
      if slot.Elem? {
        var bytes;
        ghost var k;
        bytes, k := db.ReadEntry(i);
        db.HeadBucket();
        assert bytes[..|k|] == k;
        var key := bytes[..slot.keySize];
        db.KeyEntry(key);
        HashBound(key);
        db.OwnEntry(t, k);
        sound := CheckElement(slot, bytes, db.dir, db.dirBits, db.dir[db.bucketDir]);
        if !sound {
          return;
        }
      }
      i := i + 1;
    }
    sound := true;
  }

  /** The checks of one element, whatever bytes it leads to: it is sound exactly if they begin with a
      key that has the prefix and the hash on record, and the directory leads from there to `adr`. */
  method CheckElement(slot: Slot, bytes: seq<byte>, dir: seq<nat>, dirBits: nat, adr: nat) returns (sound: bool)
    requires slot.Elem? && slot.keySize <= |bytes| && dirBits <= HASH_BITS
    ensures var key := bytes[..slot.keySize]; var index := BucketDir(Hash(key), dirBits);
            sound <==> && slot.hash == Hash(key) && slot.keyStart == Prefix(key)
                       && index < |dir| && dir[index] == adr
  {
    hide Pow2, Hash;
    var key := bytes[..slot.keySize];
    if slot.keyStart != Prefix(key) {
      return false;
    }
    var hash := HashKey(key);
    var index := BucketDir(hash, dirBits);
    if index >= |dir| || hash != slot.hash {
      return false;
    }
    sound := dir[index] == adr;
  }

  // ----- copying -----

  datatype Tally = Tally(recovered: nat, duplicates: nat, buckets: nat)

  /** The part of the database that has been visited. */
  ghost function Visited(data: map<Key, Value>, loc: map<Key, Slot>, seen: seq<Slot>): map<Key, Value> {
    map k | k in data && k in loc && loc[k] in seen :: data[k]
  }

  ghost predicate Separate(a: DatabaseFile, b: DatabaseFile) {
    a != b && a.cache != b.cache && a.space != b.space
  }

  /** Nothing has gone wrong with a cache that resizes itself. */
  ghost predicate Unhurt(db: DatabaseFile)
    reads db.cache
  {
    !(db.cache.auto && db.cache.orphaned)
  }

  /** A new database with room for more buckets than `n`, by two, in its directory or its cache. */
  ghost predicate Spacious(db: DatabaseFile, n: nat)
    reads db, db.cache
  {
    db.ShapeNow() == FirstShape(db.dirBits) && (n + 1 < Pow2(db.dirBits) || n + 1 < Pow2(db.cache.bits))
  }

  /** Then a database of `n` buckets, no larger, can be copied into it. */
  lemma EasyCopy(db: DatabaseFile, copy: DatabaseFile)
    requires db.Valid() && copy.Valid() && copy.slots >= db.slots
    ensures Spacious(copy, |db.cache.buckets|) ==>
              FillsEasily(copy.ShapeNow(), map[], Records(db.Cat()), copy.slots, copy.cache.bits)
  {
    hide DatabaseFile.Valid, Catalog.Ok, Pow2, FillsEasily, Records, FirstShape;
    db.CatOk();
    copy.CatOk();
    if Spacious(copy, |db.cache.buckets|) {
      var b := if |db.cache.buckets| + 1 < Pow2(copy.dirBits) then copy.dirBits else copy.cache.bits;
      CopyEasy(db.Cat(), db.slots, copy.dirBits, copy.slots, copy.cache.bits, b);
    }
  }

  /** The copy has reached the element before which `rest` of the walk remains. */
  ghost predicate Progress(s: Catalog, copied: map<Key, Value>, rest: seq<Slot>, tally: Tally) {
    var walk := SlotsFrom(s, 0);
    && |rest| <= |walk| && walk[|walk| - |rest|..] == rest
    && copied == Visited(s.data, s.loc, walk[..|walk| - |rest|])
    && tally.recovered == |walk| - |rest| && tally.duplicates == 0
  }

  /** run_recovery into a database that holds nothing yet and whose buckets are no smaller. */
  method RunRecovery(db: DatabaseFile, copy: DatabaseFile) returns (ok: bool, tally: Tally)
    requires db.Valid() && copy.Valid() && Separate(db, copy) && copy.data == map[] && copy.slots >= db.slots
    modifies db`bucketDir, db`health, db.cache, db.space`file, copy, copy.cache, copy.space
    ensures ok ==> db.Valid() && copy.Valid() && copy.data == db.data
    ensures ok ==> tally == Tally(|db.data|, 0, |db.cache.buckets|)
    ensures old(Unhurt(db)) && Unhurt(copy) ==> ok
    ensures old(Unhurt(copy))
            && old(FillsEasily(copy.ShapeNow(), map[], Records(db.Cat()), copy.slots, copy.cache.bits)) ==>
              Unhurt(copy)
    ensures old(Unhurt(db)) && old(Unhurt(copy)) && old(Spacious(copy, |db.cache.buckets|)) ==> ok
  {
    hide DatabaseFile.Valid, Catalog.Ok, Hash, Pow2, LookUp, Listed, Chained, Probeable, SlotsFrom, Ahead, Distinct,
         Progress, InStep, Records, FillsEasily, Spacious;
    EasyCopy(db, copy);
    db.CatOk();
    ghost var s := db.Cat();
    ghost var sh, bits := copy.ShapeNow(), copy.cache.bits;
    ghost var easy := Unhurt(copy) && FillsEasily(sh, map[], Records(s), copy.slots, bits);
    FirstStep(s, sh, copy.slots, bits);
    tally, ok := Tally(0, 0, 0), true;
    StartCopy(s, tally);
    AllBuckets(s, db.slots);
    var i := 0;
    while i < |db.dir|
      invariant i <= |db.dir| && db.Valid() && copy.Valid() && db.Cat() == s
      invariant Progress(s, copy.data, SlotsFrom(s, i), tally)
      invariant tally.buckets + |BucketsFrom(s.dir, i)| == |s.buckets|
      invariant db.cache.auto ==> db.cache.orphaned == old(db.cache.orphaned)
      invariant InStep(s, copy.ShapeNow(), copy.slots, copy.cache.bits, sh, bits, |SlotsFrom(s, i)|)
      invariant easy ==> Unhurt(copy)
    {
      db.CatOk();
      RunCounted(s, db.slots, i);
      RestOfWalk(s, i);
      ok := db.GetBucket(i);
      if !ok {
        return;
      }
      CountBuckets(s, copy.data, SlotsFrom(s, i), tally);
      tally := tally.(buckets := tally.buckets + 1);
      ok, tally := CopyBucket(db, copy, s, tally, sh, bits);
      if !ok {
        return;
      }
      i := NextBucketDir(db.dir, i);
    }
    db.CatOk();
    EndOfWalk(s, i);
    assert BucketsFrom(s.dir, i) == {};
    EndCopy(s, db.slots, copy.data, tally);
  }

  /** All but the last `rest` records of `s` have been stored in a database that had the shape `sh`
      and a cache of 2^bits elements at first. */
  ghost predicate InStep(s: Catalog, now: Shape, n: nat, nowBits: nat, sh: Shape, bits: nat, rest: nat) {
    && rest <= |Records(s)| && bits <= nowBits
    && now == FillShape(sh, map[], Records(s)[..|Records(s)| - rest], n)
  }

  lemma MoreBits(s: Catalog, now: Shape, n: nat, a: nat, b: nat, sh: Shape, bits: nat, rest: nat)
    requires InStep(s, now, n, a, sh, bits, rest) && a <= b
    ensures InStep(s, now, n, b, sh, bits, rest)
  {
  }

  lemma FirstStep(s: Catalog, sh: Shape, n: nat, bits: nat)
    ensures InStep(s, sh, n, bits, sh, bits, |SlotsFrom(s, 0)|)
  {
    hide SlotsFrom;
    NothingFilled(sh, map[], Records(s), n);
  }

  lemma StartCopy(s: Catalog, tally: Tally)
    requires tally == Tally(0, 0, 0)
    ensures Progress(s, map[], SlotsFrom(s, 0), tally)
  {
    hide SlotsFrom;
    var walk := SlotsFrom(s, 0);
    assert walk[0..] == walk && walk[..0] == [];
    assert Visited(s.data, s.loc, []) == map[];
  }

  lemma CountBuckets(s: Catalog, copied: map<Key, Value>, rest: seq<Slot>, tally: Tally)
    requires Progress(s, copied, rest, tally)
    ensures Progress(s, copied, rest, tally.(buckets := tally.buckets + 1))
  {
  }

  lemma EndCopy(s: Catalog, n: nat, copied: map<Key, Value>, tally: Tally)
    requires s.Ok(n) && Progress(s, copied, [], tally)
    ensures copied == s.data && tally.recovered == |s.data| && tally.duplicates == 0
  {
    hide SlotsFrom, Hash, LookUp, Pow2, Catalog.Shaped, Catalog.KeyPlaced, Catalog.SlotPlaced, Distinct;
    WalkComplete(s, n);
    var walk := SlotsFrom(s, 0);
    assert walk[..|walk|] == walk;
    assert forall k :: k in s.data ==> k in s.loc && s.loc[k] in s.loc.Values;
  }

  /** What is left of the walk after the bucket of entry `i`. */
  ghost function Beyond(s: Catalog, i: nat): seq<Slot> {
    if i < |s.dir| then SlotsFrom(s, RunEnd(s.dir, i)) else []
  }

  /** One bucket is copied. */
  method CopyBucket(db: DatabaseFile, copy: DatabaseFile, ghost s: Catalog, tally0: Tally, ghost sh: Shape,
                    ghost bits: nat) returns (ok: bool, tally: Tally)
    requires db.Valid() && db.Here() && copy.Valid() && Separate(db, copy) && copy.slots >= db.slots && db.Cat() == s
    requires Progress(s, copy.data, Ahead(s, db.bucketDir, 0), tally0)
    requires InStep(s, copy.ShapeNow(), copy.slots, copy.cache.bits, sh, bits, |Ahead(s, db.bucketDir, 0)|)
    modifies db.cache`elems, copy, copy.cache, copy.space
    ensures tally.buckets == tally0.buckets && (Unhurt(copy) ==> ok)
    ensures old(Unhurt(copy)) && FillsEasily(sh, map[], Records(s), copy.slots, bits) ==> Unhurt(copy)
    ensures ok ==> Progress(s, copy.data, Beyond(s, db.bucketDir), tally)
    ensures ok ==> InStep(s, copy.ShapeNow(), copy.slots, copy.cache.bits, sh, bits, |Beyond(s, db.bucketDir)|)
    ensures ok ==> db.Valid() && copy.Valid()
  {
    hide DatabaseFile.Valid, Catalog.Ok, Hash, Pow2, LookUp, Listed, Chained, Probeable, SlotsFrom, Ahead, Progress,
         InStep, FillsEasily, Records;
    ghost var easy := Unhurt(copy) && FillsEasily(sh, map[], Records(s), copy.slots, bits);
    tally, ok := tally0, true;
    ghost var t := db.CurrentTable();
    var i := 0;
    while i < db.slots
      invariant i <= db.slots && db.Valid() && db.Here() && db.Table(t) && |t| == db.slots && copy.Valid()
      invariant Progress(s, copy.data, Ahead(s, db.bucketDir, i), tally) && tally.buckets == tally0.buckets
      invariant InStep(s, copy.ShapeNow(), copy.slots, copy.cache.bits, sh, bits, |Ahead(s, db.bucketDir, i)|)
      invariant easy ==> Unhurt(copy)
    {
      EmptySlot(s, db.bucketDir, i);
      if db.cache.elems[db.cache.lru[0]].bucket.table[i].Elem? {
        ok := CopySlot(db, copy, s, i, t, tally, sh, bits);
        if !ok {
          return;
        }
        tally := tally.(recovered := tally.recovered + 1);
      }
      i := i + 1;
    }
    RestOfTable(s, db.bucketDir, db.slots);
  }

  /** One element is read and stored; it cannot be there yet. */
  method CopySlot(db: DatabaseFile, copy: DatabaseFile, ghost s: Catalog, i: nat, ghost t: seq<Slot>,
                  ghost tally: Tally, ghost sh: Shape, ghost bits: nat) returns (ok: bool)
    requires db.Valid() && db.Here() && db.Table(t) && |t| == db.slots && copy.Valid() && Separate(db, copy)
    requires copy.slots >= db.slots && db.Cat() == s
    requires i < db.slots && t[i].Elem? && Progress(s, copy.data, Ahead(s, db.bucketDir, i), tally)
    requires InStep(s, copy.ShapeNow(), copy.slots, copy.cache.bits, sh, bits, |Ahead(s, db.bucketDir, i)|)
    modifies db.cache`elems, copy, copy.cache, copy.space
    ensures old(Unhurt(copy)) && FillsEasily(sh, map[], Records(s), copy.slots, bits) ==> Unhurt(copy)
    ensures ok ==> InStep(s, copy.ShapeNow(), copy.slots, copy.cache.bits, sh, bits, |Ahead(s, db.bucketDir, i + 1)|)
    ensures ok ==> db.Valid() && db.Here() && db.Table(t) && copy.Valid()
    ensures ok ==> Progress(s, copy.data, Ahead(s, db.bucketDir, i + 1), tally.(recovered := tally.recovered + 1))
    ensures Unhurt(copy) ==> ok
  {
    hide DatabaseFile.Valid, Catalog.Ok, Hash, Pow2, LookUp, Listed, Chained, Probeable, SlotsFrom, Ahead, Progress,
         Crowded, InStep, FillsEasily, Records, Widened, Easily, DatabaseFile.ShapeNow;
    var slot := db.cache.elems[db.cache.lru[0]].bucket.table[i];
    var bytes;
    ghost var k;
    bytes, k := db.ReadEntry(i);
    db.HeadBucket();
    assert bytes[..|k|] == k && bytes[|k|..] == db.data[k];
    var key, data := bytes[..slot.keySize], bytes[slot.keySize..];
    db.CatOk();
    EmptySlot(s, db.bucketDir, i);
    OneMore(s, db.slots, copy.data, Ahead(s, db.bucketDir, i), tally, k, copy.slots);
    NextStep(s, db.slots, copy.data, Ahead(s, db.bucketDir, i), tally, k, copy.slots, copy.ShapeNow(), copy.cache.bits,
             sh, bits);
    copy.Healthy();
    assert Ahead(s, db.bucketDir, i)[1..] == Ahead(s, db.bucketDir, i + 1);
    ghost var nowBits := copy.cache.bits;
    var rc := copy.Store(key, data, false);
    ok := rc == 0;
    if ok {
      MoreBits(s, copy.ShapeNow(), copy.slots, nowBits, copy.cache.bits, sh, bits, |Ahead(s, db.bucketDir, i + 1)|);
    }
  }

  /** The next key of the walk is not in the copy, and there is room for it. */
  lemma OneMore(s: Catalog, n: nat, copied: map<Key, Value>, rest: seq<Slot>, tally: Tally, k: Key, m: nat)
    requires s.Ok(n) && s.dirBits <= MAX_DIR_BITS && Progress(s, copied, rest, tally) && n <= m
    requires |rest| > 0 && k in s.data && k in s.loc && s.loc[k] == rest[0]
    ensures k !in copied && !Crowded(copied, k, m)
    ensures Progress(s, copied[k := s.data[k]], rest[1..], tally.(recovered := tally.recovered + 1))
  {
    hide SlotsFrom, Catalog.Ok, Crowded, Visited;
    WalkComplete(s, n);
    var walk := SlotsFrom(s, 0);
    var p := |walk| - |rest|;
    assert walk[p] == rest[0] && walk[p + 1..] == rest[1..];
    assert walk[..p + 1] == walk[..p] + [s.loc[k]];
    assert s.loc[k] !in walk[..p];
    VisitedNext(s, n, walk[..p], k);
    SomeRoom(s, n, copied, k, m);
  }

  /** What storing the next key does to the shape, and when it is easy. */
  lemma NextStep(s: Catalog, n: nat, copied: map<Key, Value>, rest: seq<Slot>, tally: Tally, k: Key, m: nat, now: Shape,
                 nowBits: nat, sh: Shape, bits: nat)
    requires s.Ok(n) && Progress(s, copied, rest, tally) && InStep(s, now, m, nowBits, sh, bits, |rest|)
    requires |rest| > 0 && k in s.data && k in s.loc && s.loc[k] == rest[0] && k !in copied
    ensures FillsEasily(sh, map[], Records(s), m, bits) ==> Easily(now, copied, Hash(k), m, nowBits)
    ensures InStep(s, Widened(now, copied, Hash(k), m), m, nowBits, sh, bits, |rest| - 1)
  {
    hide SlotsFrom, Catalog.Ok, FillsEasily, Widened, Easily, Hash, FillShape, WithRecords, Visited;
    var recs, walk := Records(s), SlotsFrom(s, 0);
    var p := |walk| - |rest|;
    RecordsListed(s, n);
    assert walk[p] == walk[p..][0];
    NextRecord(s, n, recs, p, k);
    VisitedOver(s, n, recs, p);
    OneFilled(sh, map[], recs, m, p, bits, nowBits);
  }

  lemma NextRecord(s: Catalog, n: nat, recs: seq<Entry>, p: nat, k: Key)
    requires s.Ok(n) && Listing(s, recs, SlotsFrom(s, 0)) && p < |recs|
    requires k in s.data && k in s.loc && s.loc[k] == SlotsFrom(s, 0)[p]
    ensures recs[p].key == k
  {
    hide SlotsFrom, Catalog.Shaped, Catalog.KeyPlaced, Catalog.SlotPlaced;
    assert Lists(s, recs[p], SlotsFrom(s, 0)[p]);
  }

  /** What has been visited is what the records amount to. */
  lemma VisitedOver(s: Catalog, n: nat, recs: seq<Entry>, p: nat)
    requires s.Ok(n) && Listing(s, recs, SlotsFrom(s, 0)) && p <= |recs|
    ensures Visited(s.data, s.loc, SlotsFrom(s, 0)[..p]) == WithRecords(map[], recs[..p])
  {
    hide SlotsFrom, Catalog.Shaped, Catalog.KeyPlaced, Catalog.SlotPlaced, WithRecords;
    OverWalk(s, recs, p);
    var walk, m, o := SlotsFrom(s, 0), Visited(s.data, s.loc, SlotsFrom(s, 0)[..p]), WithRecords(map[], recs[..p]);
    forall k
      ensures k in m <==> k in o
    {
      if k in m {
        var j :| 0 <= j < p && walk[..p][j] == s.loc[k];
        NextRecord(s, n, recs, j, k);
      }
      if k in o {
        var j :| 0 <= j < p && recs[j].key == k;
        assert Lists(s, recs[j], walk[j]) && walk[..p][j] == walk[j];
      }
    }
  }

  lemma VisitedNext(s: Catalog, n: nat, seen: seq<Slot>, k: Key)
    requires s.Ok(n) && k in s.data && k in s.loc && s.loc[k] !in seen
    ensures k !in Visited(s.data, s.loc, seen) && Visited(s.data, s.loc, seen).Keys <= s.data.Keys
    ensures Visited(s.data, s.loc, seen + [s.loc[k]]) == Visited(s.data, s.loc, seen)[k := s.data[k]]
  {
    hide Catalog.Shaped, Catalog.KeyPlaced, Catalog.SlotPlaced;
  }

  /** A bucket holds all neighbours of a key, so a part that leaves the key out has room for it. */
  lemma SomeRoom(s: Catalog, n: nat, part: map<Key, Value>, k: Key, m: nat)
    requires s.Ok(n) && s.dirBits <= MAX_DIR_BITS && part.Keys <= s.data.Keys && k in s.data && k !in part && n <= m
    ensures !Crowded(part, k, m)
  {
    hide Hash, Pow2, Neighbours, Probeable, LookUp, Catalog.Ok;
    HashBound(k);
    var a := s.BucketOf(Hash(k));
    BucketRoom(s, n, k);
    var near := set l | l in part && Neighbours(l, k);
    forall l | l in near
      ensures l in KeysOf(s, a) - {k}
    {
      NeighbourEntry(s.dir, s.dirBits, l, k);
    }
    assert k in KeysOf(s, a);
    Subset(near, KeysOf(s, a) - {k});
  }

  lemma BucketRoom(s: Catalog, n: nat, k: Key)
    requires s.Ok(n) && k in s.data
    ensures |KeysOf(s, s.BucketOf(Hash(k)))| <= n
  {
    hide Hash, Pow2, Probeable, LookUp, Catalog.Filled, SharedRun;
    HashBound(k);
    BucketExists(s, n, Hash(k));
    BucketKeys(s, n, s.BucketOf(Hash(k)));
    assert BucketOk(s.buckets[s.BucketOf(Hash(k))], n);
  }
}
