/**
 No byte of the file serves two purposes, in any state the operations lead to.
 */
module Safety {
  import opened AvailTable
  import opened Layout
  import opened Space
  import opened Cache
  import opened CacheOps
  import opened Content
  import opened Ledger
  import opened Integrity
  import opened Database

  /** What a part of the file can be used for. */
  datatype Use =
    | TheHeader
    | TheDirectory
    | ABucket(adr: nat)
    | ARecord(key: Key)
    | ASpill(n: nat)                   // a spilled free table, by its place on the stack
    | HeaderEntry(i: nat)              // entries of the header's free table,
    | BucketEntry(adr: nat, i: nat)    // of a bucket's,
    | SpillEntry(n: nat, i: nat)       // and of a spilled one

  ghost predicate InUse(db: DatabaseFile, u: Use)
    reads db, db.cache, db.space
  {
    match u
    case TheHeader => true
    case TheDirectory => true
    case ABucket(a) => a in db.cache.buckets
    case ARecord(k) => k in db.data && k in db.loc
    case ASpill(n) => n < |db.space.stack|
    case HeaderEntry(i) => i < |db.space.avail|
    case BucketEntry(a, i) => a in db.cache.buckets && i < |db.cache.buckets[a].avail|
    case SpillEntry(n, i) => n < |db.space.stack| && i < |db.space.stack[n].table|
  }

  ghost function EntryRegion(e: Avail): Region {
    Region(e.adr, e.size)
  }

  ghost function Place(db: DatabaseFile, u: Use): Region
    requires InUse(db, u)
    reads db, db.cache, db.space
  {
    match u
    case TheHeader => Region(0, db.space.blockSize)
    case TheDirectory => Region(db.dirAdr, |db.dir| * SIZEOF_OFF_T)
    case ABucket(a) => Region(a, db.space.blockSize)
    case ARecord(k) => Extent(db.loc[k])
    case ASpill(n) => Region(db.space.stack[n].adr, BlockSize(db.space.capacity))
    case HeaderEntry(i) => EntryRegion(db.space.avail[i])
    case BucketEntry(a, i) => EntryRegion(db.cache.buckets[a].avail[i])
    case SpillEntry(n, i) => EntryRegion(db.space.stack[n].table[i])
  }

  /** The owner on the books. */
  ghost function OwnerOf(db: DatabaseFile, u: Use): Owner
    requires InUse(db, u)
    reads db, db.cache, db.space
  {
    match u
    case TheHeader => FileHeader
    case TheDirectory => Owner.Directory
    case ABucket(a) => BucketAt(a)
    case ARecord(k) => Record(k)
    case ASpill(n) => AvailBlockAt(db.space.stack[n].adr)
    case HeaderEntry(_) => Free(HeaderTable)
    case BucketEntry(a, _) => Free(BucketTable(a))
    case SpillEntry(n, _) => Free(StackTable(db.space.stack[n].adr))
  }

  /** The entries an entry belongs to; none for other uses. */
  ghost function Entries(db: DatabaseFile, u: Use): seq<Avail>
    requires InUse(db, u)
    reads db, db.cache, db.space
  {
    match u
    case HeaderEntry(_) => db.space.avail
    case BucketEntry(a, _) => db.cache.buckets[a].avail
    case SpillEntry(n, _) => db.space.stack[n].table
    case _ => []
  }

  /** Two uses of the same byte are one and the same, and the byte is below `nextBlock`. */
  lemma NoOverlap(db: DatabaseFile, u: Use, v: Use, x: nat)
    requires db.Valid() && InUse(db, u) && InUse(db, v) && Within(x, Place(db, u)) && Within(x, Place(db, v))
    ensures u == v && x < db.space.nextBlock
  {
    hide DatabaseFile.Valid, Place;
    OwnedBy(db, u, x);
    OwnedBy(db, v, x);
    SameUse(db, u, v, x);
  }

  /** Every byte of a use has its owner; entries of a table do not overlap. */
  lemma OwnedBy(db: DatabaseFile, u: Use, x: nat)
    requires db.Valid() && InUse(db, u) && Within(x, Place(db, u))
    ensures Owns(db.space.owner, x, OwnerOf(db, u)) && x < db.space.nextBlock
    ensures Entries(db, u) != [] ==> Cover(Entries(db, u), x) <= 1
  {
    hide State.Ok, World.Sound, PairsOk, Stored, Current, Linked, AllLinked, LinkedLive, Chained, DirHeld, HeaderHeld,
         Listed;
    var own := db.space.owner;
    match u
    case TheHeader => AvailNow(db.space.Now(0, []), db.space.blockSize, db.space.capacity);
    case TheDirectory => DirOwned(db.Now());
    case ABucket(a) => assert Painted(own, a, db.space.blockSize, BucketAt(a));
    case ARecord(k) => RecordPlace(db.Now(), k);
    case ASpill(n) => SpillAt(db.space.Now(0, []), db.space.blockSize, db.space.capacity, n);
    case HeaderEntry(i) => EntryOwned(own, db.space.avail, HeaderTable, i,
        x) by { HeaderTableOk(db.space.Now(0, []), db.space.blockSize, db.space.capacity); }
    case BucketEntry(a, i) => EntryOwned(own, db.cache.buckets[a].avail, BucketTable(a), i,
        x) by { BucketTableOk(db.Now(), a); }
    case SpillEntry(n, i) =>
      SpillAt(db.space.Now(0, []), db.space.blockSize, db.space.capacity, n);
      EntryOwned(own, db.space.stack[n].table, StackTable(db.space.stack[n].adr), i, x);
  }

  lemma HeaderTableOk(s: State, blockSize: nat, capacity: nat)
    requires s.Ok(blockSize, capacity)
    ensures TableOk(s.own, s.avail, HeaderTable)
  {
  }

  lemma BucketTableOk(w: World, a: nat)
    requires w.Sound({}, NOTHING, {}) && a in w.buckets
    ensures TableOk(w.own, w.buckets[a].avail, BucketTable(a))
  {
    hide Catalog.Ok, Recorded, Balanced;
  }

  lemma RecordPlace(w: World, k: Key)
    requires w.Sound({}, NOTHING, {}) && k in w.data && k in w.loc
    ensures Given(w.own, Extent(w.loc[k]), Record(k))
  {
    hide Catalog.Ok, Tabs;
    assert RecordOk(w.file, w.recs, w.data, w.loc, k);
  }

  lemma EntryOwned(own: seq<Owner>, t: seq<Avail>, tab: Table, i: nat, x: nat)
    requires TableOk(own, t, tab) && i < |t| && In(t[i], x) == 1
    ensures Owns(own, x, Free(tab)) && Cover(t, x) <= 1
  {
    CoverMember(t, i, x);
    assert Cover(t, x) == if Owns(own, x, Free(tab)) then 1 else 0;
  }

  /** The blocks of the stack, one by one. */
  lemma {:induction false} SpillAt(s: State, blockSize: nat, capacity: nat, n: nat)
    requires s.Ok(blockSize, capacity) && n < |s.stack|
    ensures Painted(s.own, s.stack[n].adr, BlockSize(capacity), AvailBlockAt(s.stack[n].adr))
    ensures TableOk(s.own, s.stack[n].table, StackTable(s.stack[n].adr))
  {
    StackAt(s.file, s.own, capacity, s.stack, s.pending, n);
  }

  lemma {:induction false} StackAt(f: seq<Cell>, own: seq<Owner>, capacity: nat, stack: seq<StackBlock>,
                                   pending: bool, n: nat)
    requires StackOk(f, own, capacity, stack, pending) && n < |stack|
    ensures Painted(own, stack[n].adr, BlockSize(capacity), AvailBlockAt(stack[n].adr))
    ensures TableOk(own, stack[n].table, StackTable(stack[n].adr))
    decreases n
  {
    if n > 0 {
      StackAt(f, own, capacity, stack[1..], false, n - 1);
    }
  }

  lemma {:induction false} StackDistinct(f: seq<Cell>, own: seq<Owner>, capacity: nat, stack: seq<StackBlock>,
                                         pending: bool, m: nat, n: nat)
    requires StackOk(f, own, capacity, stack, pending) && m < n < |stack|
    ensures stack[m].adr != stack[n].adr
    decreases m
  {
    if m > 0 {
      StackDistinct(f, own, capacity, stack[1..], false, m - 1, n - 1);
    } else {
      assert stack[1..][n - 1].adr in Addresses(stack[1..]);
    }
  }

  lemma SameUse(db: DatabaseFile, u: Use, v: Use, x: nat)
    requires db.Valid() && InUse(db, u) && InUse(db, v) && OwnerOf(db, u) == OwnerOf(db, v)
    requires Within(x, Place(db, u)) && Within(x, Place(db, v))
    requires Entries(db, u) != [] ==> Cover(Entries(db, u), x) <= 1
    ensures u == v
  {
    hide World.Sound, PairsOk, Stored, Current, Linked, AllLinked, LinkedLive, Chained, DirHeld, HeaderHeld, Listed,
         Allotted, TableOk, NoStray, Claims;
    var f, own, capacity, stack := db.space.file, db.space.owner, db.space.capacity, db.space.stack;
    if (u.ASpill? || u.SpillEntry?) && (v.ASpill? || v.SpillEntry?) && u.n != v.n {
      if u.n < v.n {
        StackDistinct(f, own, capacity, stack, false, u.n, v.n);
      } else {
        StackDistinct(f, own, capacity, stack, false, v.n, u.n);
      }
    } else if (u.HeaderEntry? || u.BucketEntry? || u.SpillEntry?) && u.i != v.i {
      TwoEntries(Entries(db, u), u.i, v.i, x);
    }
  }

  /** A byte in two entries is covered twice. */
  lemma {:induction false} TwoEntries(t: seq<Avail>, i: nat, j: nat, x: nat)
    requires i < |t| && j < |t| && i != j && In(t[i], x) == 1 && In(t[j], x) == 1
    ensures Cover(t, x) >= 2
    decreases |t|
  {
    if i == 0 {
      CoverMember(t[1..], j - 1, x);
    } else if j == 0 {
      CoverMember(t[1..], i - 1, x);
    } else {
      TwoEntries(t[1..], i - 1, j - 1, x);
    }
  }

  // ----- and none is lost -----

  /** Every byte below `nextBlock` has a use, except slivers too small to record and what a pop
      has forgotten. */
  lemma EveryByte(db: DatabaseFile, x: nat) returns (u: Use)
    requires db.Valid() && x < db.space.nextBlock && db.space.owner[x] !in {Sliver, Dropped}
    ensures InUse(db, u) && Within(x, Place(db, u))
  {
    hide World.Sound, State.Ok, PairsOk, Stored, Current, Linked, AllLinked, LinkedLive, Chained, DirHeld, HeaderHeld,
         Listed, Allotted;
    var own, s := db.space.owner, db.space.Now(0, []);
    ByteRightful(db.Now(), x);
    match own[x] {
      case FileHeader => u := TheHeader;
      case Directory => u := TheDirectory;
      case BucketAt(a) => u := ABucket(a);
      case Record(k) =>
        RecordKept(db.Now(), k);
        u := ARecord(k);
      case AvailBlockAt(a) =>
        var n := SpillOf(s, db.space.blockSize, db.space.capacity, x);
        u := ASpill(n);
      case Free(tab) =>
        match tab {
          case HeaderTable =>
            HeaderTableOk(s, db.space.blockSize, db.space.capacity);
            var i := EntryOf(own, db.space.avail, tab, x);
            u := HeaderEntry(i);
          case BucketTable(a) =>
            BucketTableOk(db.Now(), a);
            var i := EntryOf(own, db.cache.buckets[a].avail, tab, x);
            u := BucketEntry(a, i);
          case StackTable(a) =>
            var n := SpillOf(s, db.space.blockSize, db.space.capacity, x);
            SpillAt(s, db.space.blockSize, db.space.capacity, n);
            var i := EntryOf(own, db.space.stack[n].table, tab, x);
            u := SpillEntry(n, i);
        }
      case _ =>
        assert false;
    }
  }

  lemma ByteRightful(w: World, x: nat)
    requires w.Sound({}, NOTHING, {}) && x < |w.own|
    ensures Rightful(x, w.own[x], w.Account(), NOTHING)
  {
    hide Catalog.Ok, Recorded, Tabs, Rightful;
  }

  lemma RecordKept(w: World, k: Key)
    requires w.Sound({}, NOTHING, {}) && w.recs.Keys == w.data.Keys && k in w.recs
    ensures k in w.data && k in w.loc && w.recs[k] == Extent(w.loc[k])
  {
    hide Catalog.Ok, Tabs, Balanced;
    assert RecordOk(w.file, w.recs, w.data, w.loc, k);
  }

  lemma EntryOf(own: seq<Owner>, t: seq<Avail>, tab: Table, x: nat) returns (i: nat)
    requires TableOk(own, t, tab) && x < |own| && own[x] == Free(tab)
    ensures i < |t| && Within(x, EntryRegion(t[i]))
  {
    assert Cover(t, x) == if Owns(own, x, Free(tab)) then 1 else 0;
    i := CoverWitness(t, x);
  }

  lemma SpillOf(s: State, blockSize: nat, capacity: nat, x: nat) returns (n: nat)
    requires s.Ok(blockSize, capacity) && x < |s.own| && Stackish(s.own[x])
    ensures n < |s.stack|
    ensures s.own[x].AvailBlockAt? ==> s.own[x].adr == s.stack[n].adr
    ensures s.own[x].AvailBlockAt? ==> Within(x, Region(s.stack[n].adr, BlockSize(capacity)))
    ensures s.own[x].Free? ==> s.own[x].table.adr == s.stack[n].adr
  {
    hide StackOk, TableOk, Claims;
    var a := if s.own[x].AvailBlockAt? then s.own[x].adr else s.own[x].table.adr;
    assert a in Addresses(s.stack);
    n :| 0 <= n < |s.stack| && s.stack[n].adr == a;
  }
}
