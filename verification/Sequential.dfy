/**
 Walking a database: gdbm_firstkey and gdbm_nextkey (src/gdbmseq.c), gdbm_count
 (src/gdbmcount.c), and the consistency check and the copying loop of recovery (src/recover.c).
 */
module Sequential {
  import opened Bits
  import opened Layout
  import opened Sequences
  import opened HashTable
  import opened Directory
  import opened Cache
  import opened Content
  import opened Traversal
  import opened Database

  /** The loop that skips the other directory entries of the current bucket. */
  method SkipRun(dir: seq<nat>, i: nat, adr: nat) returns (j: nat)
    requires i < |dir| && dir[i] == adr
    ensures j == RunEnd(dir, i)
  {
    j := i;
    while j < |dir| && adr == dir[j]
      invariant i <= j <= |dir| && (forall k :: i <= k < j ==> dir[k] == adr)
    {
      j := j + 1;
    }
    RunEndUnique(dir, i, j);
  }

  /** The slot at `elemLoc` of the current bucket is the next one of the walk. */
  ghost predicate At(db: DatabaseFile, elemLoc: nat, rest: seq<Slot>)
    reads db, db.cache
  {
    && db.bucketDir < |db.dir| && elemLoc < |TableOf(db.Cat(), db.bucketDir)|
    && TableOf(db.Cat(), db.bucketDir)[elemLoc].Elem? && rest == Ahead(db.Cat(), db.bucketDir, elemLoc)
  }

  /** One step of get_next_key: to the next slot, in the next bucket if need be.  At the end of
      the walk the answer is -1. */
  method NextSlot(db: DatabaseFile, start: int, ghost rest: seq<Slot>) returns (ok: bool, elemLoc: int)
    requires db.Valid() && db.Here() && -1 <= start < db.slots && rest == Ahead(db.Cat(), db.bucketDir, start + 1)
    modifies db`bucketDir, db`health, db.cache, db.space`file
    ensures db.cache.buckets == old(db.cache.buckets) && (db.cache.auto ==> db.cache.orphaned == old(db.cache.orphaned))
    ensures !ok ==> db.health == Dead && db.cache.auto && db.cache.orphaned
    ensures ok ==> db.Valid() && -1 <= elemLoc < db.slots && (elemLoc == -1 ==> rest == [])
    ensures ok && elemLoc >= 0 ==> db.Here() && rest == Ahead(db.Cat(), db.bucketDir, elemLoc)
    ensures ok && elemLoc >= 0 ==>
              (db.bucketDir == old(db.bucketDir) && elemLoc == start + 1) || db.bucketDir > old(db.bucketDir)
  {
    hide DatabaseFile.Valid, Catalog.Ok, Hash, Pow2, LookUp, Listed, Chained, Probeable, Taken, SlotsFrom, RunEnd;
    ghost var s := db.Cat();
    ghost var t := db.CurrentTable();
    elemLoc := start + 1;
    if elemLoc == db.slots {
      elemLoc := 0;
      RestOfTable(s, db.bucketDir, db.slots);
      var next := SkipRun(db.dir, db.bucketDir, db.cache.elems[db.cache.lru[0]].adr);
      if next < |db.dir| {
        RestOfWalk(s, next);
        ok := db.GetBucket(next);
        if !ok {
          elemLoc := -1;
        }
        return;
      }
      db.SetBucketDir(next);
      return true, -1;
    }
    ok := true;
  }

  lemma RestOfTable(s: Catalog, i: nat, e: nat)
    requires i < |s.dir| && e >= |TableOf(s, i)|
    ensures Ahead(s, i, e) == SlotsFrom(s, RunEnd(s.dir, i))
    ensures RunEnd(s.dir, i) >= |s.dir| ==> Ahead(s, i, e) == []
  {
  }

  lemma RestOfWalk(s: Catalog, i: nat)
    requires i < |s.dir|
    ensures SlotsFrom(s, i) == Ahead(s, i, 0)
  {
  }

  lemma EmptySlot(s: Catalog, i: nat, e: nat)
    requires i < |s.dir| && e < |TableOf(s, i)|
    ensures TableOf(s, i)[e].Empty? ==> Ahead(s, i, e) == Ahead(s, i, e + 1)
    ensures TableOf(s, i)[e].Elem? ==> Ahead(s, i, e) == [TableOf(s, i)[e]] + Ahead(s, i, e + 1)
  {
  }

  /** The loop of get_next_key: the next element after `start` in the current bucket, or the
      first one of a later bucket. */
  method Advance(db: DatabaseFile, start: int, ghost rest: seq<Slot>) returns (ok: bool, elemLoc: int)
    requires db.Valid() && db.Here() && -1 <= start < db.slots && rest == Ahead(db.Cat(), db.bucketDir, start + 1)
    modifies db`bucketDir, db`health, db.cache, db.space`file
    ensures db.cache.buckets == old(db.cache.buckets) && (db.cache.auto ==> db.cache.orphaned == old(db.cache.orphaned))
    ensures !ok ==> db.health == Dead && db.cache.auto && db.cache.orphaned
    ensures ok ==> db.Valid() && -1 <= elemLoc && (elemLoc == -1 ==> rest == [])
    ensures ok && elemLoc >= 0 ==> db.Here() && At(db, elemLoc, rest)
  {
    hide DatabaseFile.Valid, Catalog.Ok, Hash, Pow2, LookUp, Listed, Chained, Probeable, Ahead;
    ghost var s := db.Cat();
    elemLoc := start;
    var found := false;
    while !found
      invariant db.Valid() && db.Here() && db.Cat() == s && -1 <= elemLoc < db.slots
      invariant db.cache.auto ==> db.cache.orphaned == old(db.cache.orphaned)
      invariant if found then elemLoc >= 0 && At(db, elemLoc, rest) else rest == Ahead(s, db.bucketDir, elemLoc + 1)
      decreases |db.dir| - db.bucketDir, db.slots - elemLoc, if found then 0 else 1
    {
      ok, elemLoc := NextSlot(db, elemLoc, rest);
      if !ok || elemLoc == -1 {
        return;
      }
      ghost var t := db.CurrentTable();
      found := db.cache.elems[db.cache.lru[0]].bucket.table[elemLoc].Elem?;
      EmptySlot(s, db.bucketDir, elemLoc);
    }
    ok := true;
  }

  /** get_next_key, with its check of what it finds */
  method GetNextKey(db: DatabaseFile, start: int, ghost rest: seq<Slot>) returns (ok: bool, r: Option<Key>)
    requires db.Valid() && db.Here() && -1 <= start < db.slots && rest == Ahead(db.Cat(), db.bucketDir, start + 1)
    modifies db`bucketDir, db`health, db.cache, db.space`file
    ensures db.cache.buckets == old(db.cache.buckets) && (db.cache.auto ==> db.cache.orphaned == old(db.cache.orphaned))
    ensures !ok ==> db.health == Dead && db.cache.auto && db.cache.orphaned
    ensures ok ==> db.Valid() && (r.None? <==> rest == [])
    ensures ok && r.Some? ==> r.value in db.data && r.value in db.loc && db.loc[r.value] == rest[0]
  {
    hide DatabaseFile.Valid, Catalog.Ok, Hash, Pow2, LookUp, Listed, Chained, Probeable;
    var elemLoc;
    ok, elemLoc := Advance(db, start, rest);
    if !ok || elemLoc == -1 {
      return ok, None;
    }
    var bytes;
    ghost var k;
    ghost var t := db.CurrentTable();
    var slot := db.cache.elems[db.cache.lru[0]].bucket.table[elemLoc];
    bytes, k := db.ReadEntry(elemLoc);
    db.HeadBucket();
    assert bytes[..|k|] == k;
    var key := bytes[..slot.keySize];
    db.KeyEntry(key);
    HashBound(key);
    var index := BucketDir(Hash(key), db.dirBits);
    db.OwnEntry(t, k);
    if !(db.dir[index] >= db.space.blockSize && db.dir[index] == db.dir[db.bucketDir] && Hash(key) == slot.hash) {
      assert false;
    }
    return true, Some(key);
  }

  /** The order of the walk: each key's slot, once. */
  ghost function Walk(db: DatabaseFile): seq<Slot>
    reads db, db.cache
  {
    SlotsFrom(db.Cat(), 0)
  }

  /** gdbm_firstkey */
  method FirstKey(db: DatabaseFile) returns (ok: bool, r: Option<Key>)
    requires db.Valid()
    modifies db`bucketDir, db`health, db.cache, db.space`file
    ensures db.cache.buckets == old(db.cache.buckets) && (db.cache.auto ==> db.cache.orphaned == old(db.cache.orphaned))
    ensures !ok ==> db.health == Dead && db.cache.auto && db.cache.orphaned
    ensures ok ==> db.Valid() && (r.None? <==> Walk(db) == [])
    ensures ok && r.Some? ==> r.value in db.data && r.value in db.loc && db.loc[r.value] == Walk(db)[0]
  {
    hide DatabaseFile.Valid, Catalog.Ok, Hash, Pow2, LookUp, Listed, Chained, SlotsFrom, Ahead;
    db.CatOk();
    ok := db.GetBucket(0);
    if !ok {
      return false, None;
    }
    RestOfWalk(db.Cat(), 0);
    ok, r := GetNextKey(db, -1, Walk(db));
  }

  /** gdbm_nextkey: the key whose slot follows that of `key`; a key that is not stored has none. */
  method NextKey(db: DatabaseFile, key: Key) returns (ok: bool, r: Option<Key>, ghost p: nat)
    requires db.Valid()
    modifies db`bucketDir, db`health, db.cache, db.space`file
    ensures db.cache.buckets == old(db.cache.buckets) && (db.cache.auto ==> db.cache.orphaned == old(db.cache.orphaned))
    ensures !ok ==> db.health == Dead && db.cache.auto && db.cache.orphaned
    ensures ok ==> db.Valid() && (key !in db.data ==> r == None)
    ensures ok && key in db.data ==> key in db.loc && p < |Walk(db)| && Walk(db)[p] == db.loc[key]
    ensures ok && key in db.data ==> (r.None? <==> p + 1 == |Walk(db)|)
    ensures ok && r.Some? ==> r.value in db.data && r.value in db.loc && p + 1 < |Walk(db)|
    ensures ok && r.Some? ==> db.loc[r.value] == Walk(db)[p + 1]
  {
    hide DatabaseFile.Valid, Catalog.Ok, Hash, Pow2, LookUp, Listed, Chained, SlotsFrom, Ahead;
    p := 0;
    var elemLoc, value;
    ghost var t;
    ok, elemLoc, value, t := db.FindKey(key);
    if !ok || elemLoc == -1 {
      return ok, None, 0;
    }
    ghost var t0 := db.CurrentTable();
    db.KeySlot(key, t);
    p := PlaceOf(db.Cat(), db.bucketDir, elemLoc);
    ghost var rest := Ahead(db.Cat(), db.bucketDir, elemLoc + 1);
    ok, r := GetNextKey(db, elemLoc, rest);
  }

  /** Where a slot is in the walk, and what comes after it. */
  lemma PlaceOf(s: Catalog, i: nat, e: nat) returns (p: nat)
    requires i < |s.dir| && e < |TableOf(s, i)| && TableOf(s, i)[e].Elem?
    ensures p < |SlotsFrom(s, 0)| && SlotsFrom(s, 0)[p] == TableOf(s, i)[e]
    ensures var rest := Ahead(s, i, e + 1);
            |SlotsFrom(s, 0)| == p + 1 + |rest| && (rest != [] ==> rest[0] == SlotsFrom(s, 0)[p + 1])
  {
    hide SlotsFrom, Ahead;
    SuffixFrom(s, 0, i, e);
    EmptySlot(s, i, e);
    var all, rest := SlotsFrom(s, 0), Ahead(s, i, e + 1);
    p :| 0 <= p <= |all| && all[p..] == Ahead(s, i, e);
    assert all[p..] == [TableOf(s, i)[e]] + rest;
    assert all[p..][0] == TableOf(s, i)[e];
    assert rest != [] ==> all[p..][1] == rest[0];
  }

  /** gdbm_firstkey, then gdbm_nextkey until it finds nothing: every key is met exactly once. */
  method VisitAll(db: DatabaseFile) returns (ok: bool, keys: seq<Key>)
    requires db.Valid()
    modifies db`bucketDir, db`health, db.cache, db.space`file
    ensures db.cache.buckets == old(db.cache.buckets) && (db.cache.auto ==> db.cache.orphaned == old(db.cache.orphaned))
    ensures !ok ==> db.health == Dead && db.cache.auto && db.cache.orphaned
    ensures ok ==> db.Valid() && Distinct(keys) && (forall k :: k in keys <==> k in db.data) && |keys| == |db.data|
  {
    hide DatabaseFile.Valid, Catalog.Ok, Hash, Pow2, LookUp, Listed, Chained, SlotsFrom, Distinct;
    db.CatOk();
    WalkComplete(db.Cat(), db.slots);
    keys := [];
    ghost var s, walk := db.Cat(), Walk(db);
    var r;
    ok, r := FirstKey(db);
    while ok && r.Some?
      invariant db.cache.buckets == old(db.cache.buckets)
      invariant (db.cache.auto ==> db.cache.orphaned == old(db.cache.orphaned))
      invariant !ok ==> db.health == Dead && db.cache.auto && db.cache.orphaned
      invariant ok ==> db.Valid() && db.Cat() == s && Traced(db, keys, walk) && |keys| <= |walk|
      invariant ok && r.Some? ==> |keys| < |walk| && r.value in db.data && r.value in db.loc
      invariant ok && r.Some? ==> db.loc[r.value] == walk[|keys|]
      invariant ok && r.None? ==> |keys| == |walk|
      decreases |walk| - |keys|, ok
    {
      ghost var q;
      var next;
      ok, next, q := NextKey(db, r.value);
      if ok {
        SamePlace(walk, q, |keys|);
      }
      keys := keys + [r.value];
      r := next;
    }
    if ok {
      db.CatOk();
      TracedAll(db.Cat(), db.slots, keys, walk);
    }
  }

  /** The keys met so far are those of the walk so far. */
  ghost predicate Traced(db: DatabaseFile, keys: seq<Key>, walk: seq<Slot>)
    reads db
  {
    |keys| <= |walk| && forall i :: 0 <= i < |keys| ==> keys[i] in db.loc && db.loc[keys[i]] == walk[i]
  }

  lemma SamePlace(walk: seq<Slot>, p: nat, q: nat)
    requires Distinct(walk) && p < |walk| && q < |walk| && walk[p] == walk[q]
    ensures p == q
  {
  }

  lemma TracedAll(s: Catalog, n: nat, keys: seq<Key>, walk: seq<Slot>)
    requires s.Ok(n) && walk == SlotsFrom(s, 0) && |keys| == |walk|
    requires forall i :: 0 <= i < |keys| ==> keys[i] in s.loc && s.loc[keys[i]] == walk[i]
    ensures Distinct(keys) && (forall k :: k in keys <==> k in s.data) && |keys| == |s.data|
  {
    hide Hash, LookUp, Pow2, SlotsFrom, Catalog.Shaped, Catalog.KeyPlaced, Catalog.SlotPlaced;
    WalkComplete(s, n);
    forall k | k in s.data
      ensures k in keys
    {
      assert s.loc[k] in s.loc.Values;
      var i :| 0 <= i < |walk| && walk[i] == s.loc[k];
      assert keys[i] == k;
    }
  }

  /** gdbm_count */
  method Count(db: DatabaseFile) returns (ok: bool, count: nat)
    requires db.Valid()
    modifies db`bucketDir, db`health, db.cache, db.space`file
    ensures db.cache.buckets == old(db.cache.buckets) && (db.cache.auto ==> db.cache.orphaned == old(db.cache.orphaned))
    ensures !ok ==> db.health == Dead && db.cache.auto && db.cache.orphaned
    ensures ok ==> db.Valid() && count == |db.data|
  {
    hide DatabaseFile.Valid, Catalog.Ok, Hash, Pow2, LookUp, Listed, Chained, Probeable, SlotsFrom;
    db.CatOk();
    ghost var s := db.Cat();
    WalkComplete(s, db.slots);
    count, ok := 0, true;
    var i := 0;
    while i < |db.dir|
      invariant i <= |db.dir| && db.Valid() && db.Cat() == s && count + |SlotsFrom(s, i)| == |SlotsFrom(s, 0)|
      invariant db.cache.auto ==> db.cache.orphaned == old(db.cache.orphaned)
    {
      ok := db.GetBucket(i);
      if !ok {
        return false, 0;
      }
      ghost var t := db.CurrentTable();
      db.CatOk();
      BucketCounted(s, db.slots, i);
      count := count + db.cache.elems[db.cache.lru[0]].bucket.count;
      i := NextBucketDir(db.dir, i);
    }
    EndOfWalk(s, i);
  }

  lemma EndOfWalk(s: Catalog, i: nat)
    requires i >= |s.dir|
    ensures SlotsFrom(s, i) == []
  {
  }

  lemma BucketCounted(s: Catalog, n: nat, i: nat)
    requires s.Ok(n) && i < |s.dir|
    ensures s.dir[i] in s.buckets
    ensures |SlotsFrom(s, i)| == s.buckets[s.dir[i]].count + |SlotsFrom(s, RunEnd(s.dir, i))|
  {
    hide Hash, LookUp, Pow2, Probeable, SharedRun, Catalog.Filled;
    BucketRun(s, n, i);
    assert BucketOk(s.buckets[s.dir[i]], n);
    var t := TableOf(s, i);
    TakenCount(t, 0);
    assert t[0..] == t;
  }

  // ----- counting buckets -----

  ghost function BucketsFrom(dir: seq<nat>, i: nat): set<nat> {
    set j | i <= j < |dir| :: dir[j]
  }

  /** gdbm_bucket_count */
  method BucketCount(db: DatabaseFile) returns (count: nat)
    requires db.Valid()
    ensures count == |db.cache.buckets|
  {
    hide DatabaseFile.Valid, Hash, Pow2, LookUp, Catalog.Filled, BucketOk, SharedRun;
    db.CatOk();
    count := 0;
    var i := 0;
    AllBuckets(db.Cat(), db.slots);
    while i < |db.dir|
      invariant i <= |db.dir| && count + |BucketsFrom(db.dir, i)| == |db.cache.buckets|
    {
      RunCounted(db.Cat(), db.slots, i);
      i := NextBucketDir(db.dir, i);
      count := count + 1;
    }
    assert BucketsFrom(db.dir, i) == {};
  }

  lemma AllBuckets(s: Catalog, n: nat)
    requires s.Ok(n)
    ensures |BucketsFrom(s.dir, 0)| == |s.buckets|
  {
    hide Pow2, Catalog.Filled, BucketOk, SharedRun;
    assert forall a :: a in s.buckets <==> a in Depths(s.buckets);
    assert BucketsFrom(s.dir, 0) == s.buckets.Keys;
  }

  lemma RunCounted(s: Catalog, n: nat, i: nat)
    requires s.Ok(n) && i < |s.dir|
    ensures |BucketsFrom(s.dir, i)| == 1 + |BucketsFrom(s.dir, RunEnd(s.dir, i))|
  {
    hide Pow2, Catalog.Filled, BucketOk, SharedRun;
    var j := RunEnd(s.dir, i);
    forall k | j <= k < |s.dir|
      ensures s.dir[k] != s.dir[i]
    {
      BeyondRun(s.dir, s.dirBits, Depths(s.buckets), i, k);
    }
    assert BucketsFrom(s.dir, i) == {s.dir[i]} + BucketsFrom(s.dir, j);
  }
}
