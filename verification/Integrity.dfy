/**
 A database as a whole at one moment: who owns the file's bytes, what the file holds, what the
 buckets and the directory say, and which keys have which values.
 */
module Integrity {
  import opened AvailTable
  import opened Layout
  import opened Sequences
  import opened Space
  import opened HashTable
  import opened Cache
  import opened Content
  import opened Ledger

  /** The part of the file a slot refers to: the key, followed by its value. */
  ghost function Extent(s: Slot): Region {
    if s.Elem? then Region(s.ptr, s.keySize + s.dataSize) else NOTHING
  }

  /** Every bucket's free table claims its own bytes. */
  ghost predicate Tabs(own: seq<Owner>, buckets: map<nat, Bucket>) {
    forall a :: a in buckets ==> TableOk(own, buckets[a].avail, BucketTable(a)) && |buckets[a].avail| <= BUCKET_AVAIL
  }

  ghost predicate OnDisk(f: seq<Cell>, r: Region, bytes: seq<byte>) {
    r.len == |bytes| && (|bytes| == 0 || Holds(f, r.adr, RawCells(bytes)))
  }

  /** Key `k` and its value are in the file, where the key's slot says. */
  ghost predicate RecordOk(f: seq<Cell>, recs: map<Key, Region>, data: map<Key, Value>, loc: map<Key, Slot>, k: Key) {
    k in data && k in loc && k in recs && recs[k] == Extent(loc[k]) && OnDisk(f, recs[k], k + data[k])
  }

  ghost predicate Recorded(f: seq<Cell>, recs: map<Key, Region>, data: map<Key, Value>, loc: map<Key, Slot>,
                           lost: set<Key>) {
    forall k :: k in data && k !in lost ==> RecordOk(f, recs, data, loc, k)
  }

  datatype World = World(own: seq<Owner>, file: seq<Cell>, size: nat, slots: nat, dirAdr: nat, olds: map<nat, Region>,
                         recs: map<Key, Region>,
                         buckets: map<nat, Bucket>, dir: seq<nat>, dirBits: nat, data: map<Key, Value>,
                             loc: map<Key, Slot>)
  {
    ghost function Account(): Books {
      Books(Region(dirAdr, |dir| * SIZEOF_OFF_T), olds, buckets.Keys, recs, size)
    }

    /** The database the directory gives access to; buckets in `young` are not in it yet. */
    ghost function Content(young: set<nat>): Catalog {
      Catalog(dir, dirBits, buckets - young, data, loc)
    }

    /** `spare` is allocated and not used yet; the records of keys in `lost` are given up. */
    ghost predicate Sound(young: set<nat>, spare: Region, lost: set<Key>) {
      && size > 0
      && Balanced(own, Account(), spare)
      && Tabs(own, buckets)
      && Recorded(file, recs, data, loc, lost)
      && Content(young).Ok(slots)
    }
  }

  // ----- what an allocation or a release leaves alone -----

  /** Free tables of other buckets keep their claims. */
  lemma TabsFramed(own: seq<Owner>, own': seq<Owner>, buckets: map<nat, Bucket>, cur: nat, b: Bucket)
    requires Tabs(own, buckets) && TableOk(own', b.avail, BucketTable(cur)) && |b.avail| <= BUCKET_AVAIL
    requires forall x: nat, a: nat :: a != cur ==>
              Owns(own', x, Free(BucketTable(a))) == Owns(own, x, Free(BucketTable(a)))
    ensures Tabs(own', buckets[cur := b])
  {
    forall a | a in buckets && a != cur
      ensures TableOk(own', buckets[a].avail, BucketTable(a))
    {
      ClaimsElsewhere(own, own', buckets[a].avail, Free(BucketTable(a)));
    }
  }

  /** Bytes held for somebody keep what they hold. */
  lemma HoldsFramed(own: seq<Owner>, f: seq<Cell>, f': seq<Cell>, r: Region, o: Owner, c: seq<Cell>)
    requires Given(own, r, o) && |c| == r.len && Holds(f, r.adr, c)
    requires |f| <= |f'| && forall x :: 0 <= x < |f| && x < |own| && own[x] == o ==> f'[x] == f[x]
    ensures Holds(f', r.adr, c)
  {
    assert forall x :: r.adr <= x < r.adr + r.len ==> own[x] == o;
    assert f'[r.adr..r.adr + r.len] == f[r.adr..r.adr + r.len];
  }

  /** The file is unchanged where records are. */
  ghost predicate SameRecords(own: seq<Owner>, f: seq<Cell>, f': seq<Cell>) {
    |f| <= |f'| && forall x :: 0 <= x < |f| && x < |own| && own[x].Record? ==> f'[x] == f[x]
  }

  lemma RecordsFramed(own: seq<Owner>, f: seq<Cell>, f': seq<Cell>, b: Books, spare: Region, data: map<Key, Value>,
                      loc: map<Key, Slot>, lost: set<Key>)
    requires Balanced(own, b, spare) && Recorded(f, b.recs, data, loc, lost) && SameRecords(own, f, f')
    ensures Recorded(f', b.recs, data, loc, lost)
  {
    forall k | k in data && k !in lost
      ensures RecordOk(f', b.recs, data, loc, k)
    {
      assert RecordOk(f, b.recs, data, loc, k);
      assert Given(own, b.recs[k], Record(k));
      if |k + data[k]| > 0 {
        HoldsFramed(own, f, f', b.recs[k], Record(k), RawCells(k + data[k]));
      }
    }
  }

  /** Space has been taken for the current bucket. */
  lemma SpaceTaken(w: World, own': seq<Owner>, file': seq<Cell>, cur: nat, av: seq<Avail>, r: Region, young: set<nat>,
                   lost: set<Key>)
    requires w.Sound(young, NOTHING, lost) && cur in w.buckets && cur !in young && Given(own', r, Reserved)
    requires Frame(w.own, Paint(own', r.adr, r.len, Sliver), cur) && FileFrame(w.own, w.file, file', cur)
    requires Settled(own')
    requires TableOk(own', av, BucketTable(cur)) && |av| <= BUCKET_AVAIL
    ensures w.(own := own', file := file', buckets := w.buckets[cur := w.buckets[cur].(avail := av)]).Sound(young, r,
              lost)
  {
    hide Catalog.Ok, TableOk, Recorded, Tabs, Balanced;
    var b := w.buckets[cur].(avail := av);
    var w' := w.(own := own', file := file', buckets := w.buckets[cur := b]);
    TakenOwns(w.own, own', r, cur);
    TabsFramed(w.own, own', w.buckets, cur, b);
    TakenRecords(w.own, own', w.file, file', r, cur);
    RecordsFramed(w.own, w.file, file', w.Account(), NOTHING, w.data, w.loc, lost);
    assert w'.Account() == w.Account();
    Allocated(w.own, own', w.Account(), r, cur);
    assert w'.buckets - young == (w.buckets - young)[cur := b];
    NewAvail(w.Content(young), w.slots, cur, b);
  }

  lemma TakenOwns(own: seq<Owner>, own': seq<Owner>, r: Region, cur: nat)
    requires Given(own', r, Reserved) && Frame(own, Paint(own', r.adr, r.len, Sliver), cur)
    ensures forall x: nat, a: nat :: a != cur ==>
              Owns(own', x, Free(BucketTable(a))) == Owns(own, x, Free(BucketTable(a)))
  {
    var own1 := Paint(own', r.adr, r.len, Sliver);
    forall x: nat, a: nat | a != cur
      ensures Owns(own', x, Free(BucketTable(a))) == Owns(own, x, Free(BucketTable(a)))
    {
      if x < |own'| {
        assert own1[x] == if Within(x, r) then Sliver else own'[x];
      }
    }
  }

  lemma TakenRecords(own: seq<Owner>, own': seq<Owner>, f: seq<Cell>, f': seq<Cell>, r: Region, cur: nat)
    requires FileFrame(own, f, f', cur)
    ensures SameRecords(own, f, f')
  {
  }

  /** The spare region has been released. */
  lemma SpaceReturned(w: World, own': seq<Owner>, file': seq<Cell>, cur: nat, av: seq<Avail>, r: Region,
                      young: set<nat>, lost: set<Key>)
    requires w.Sound(young, r, lost) && cur in w.buckets && cur !in young
    requires Frame(Paint(w.own, r.adr, r.len, Sliver), own', cur) && FileFrame(w.own, w.file, file', cur)
    requires Settled(own')
    requires TableOk(own', av, BucketTable(cur)) && |av| <= BUCKET_AVAIL
    ensures w.(own := own', file := file', buckets := w.buckets[cur := w.buckets[cur].(avail := av)]).Sound(young,
              NOTHING, lost)
  {
    hide Catalog.Ok, TableOk, Recorded, Tabs;
    var b := w.buckets[cur].(avail := av);
    var w' := w.(own := own', file := file', buckets := w.buckets[cur := b]);
    assert Given(w.own, r, Reserved);
    hide Balanced;
    ReturnedOwns(w.own, own', r, cur);
    TabsFramed(w.own, own', w.buckets, cur, b);
    TakenRecords(w.own, own', w.file, file', r, cur);
    RecordsFramed(w.own, w.file, file', w.Account(), r, w.data, w.loc, lost);
    assert w'.Account() == w.Account();
    Released(w.own, own', w.Account(), r, cur);
    assert w'.buckets - young == (w.buckets - young)[cur := b];
    NewAvail(w.Content(young), w.slots, cur, b);
  }

  lemma ReturnedOwns(own: seq<Owner>, own': seq<Owner>, r: Region, cur: nat)
    requires Given(own, r, Reserved) && Frame(Paint(own, r.adr, r.len, Sliver), own', cur)
    ensures forall x: nat, a: nat :: a != cur ==>
              Owns(own', x, Free(BucketTable(a))) == Owns(own, x, Free(BucketTable(a)))
  {
    var own1 := Paint(own, r.adr, r.len, Sliver);
    forall x: nat, a: nat | a != cur
      ensures Owns(own', x, Free(BucketTable(a))) == Owns(own, x, Free(BucketTable(a)))
    {
      if x < |own| {
        assert own1[x] == if Within(x, r) then Sliver else own[x];
      }
    }
  }

  // ----- the file changes, nothing else -----

  lemma FileMoved(w: World, file': seq<Cell>, young: set<nat>, spare: Region, lost: set<Key>)
    requires w.Sound(young, spare, lost) && SameRecords(w.own, w.file, file')
    ensures w.(file := file').Sound(young, spare, lost)
  {
    hide Catalog.Ok, Recorded, Tabs, Balanced;
    RecordsFramed(w.own, w.file, file', w.Account(), spare, w.data, w.loc, lost);
  }

  lemma BucketWrites(own: seq<Owner>, f: seq<Cell>, f': seq<Cell>)
    requires OnlyBuckets(own, f, f')
    ensures SameRecords(own, f, f')
  {
  }

  // ----- the current bucket's table as the allocator sees it -----

  ghost predicate SpaceOk(s: State, blockSize: nat, capacity: nat) {
    s.cur == 0 && s.av == [] && s.Ok(blockSize, capacity)
  }

  /** The allocator works with any bucket's free table. */
  lemma WithTable(s: State, blockSize: nat, capacity: nat, cur: nat, av: seq<Avail>)
    requires SpaceOk(s, blockSize, capacity) && TableOk(s.own, av, BucketTable(cur)) && |av| <= BUCKET_AVAIL
    ensures s.(cur := cur, av := av).Ok(blockSize, capacity)
  {
  }

  lemma WithoutTable(s: State, blockSize: nat, capacity: nat, b: Books, spare: Region)
    requires s.Ok(blockSize, capacity) && Balanced(s.own, b, spare) && blockSize > 0 && b.size > 0
    ensures SpaceOk(s.(cur := 0, av := []), blockSize, capacity)
  {
    hide StackOk, NoStray;
    assert s.own[0] == FileHeader;
    assert 0 in b.buckets ==> Given(s.own, Region(0, b.size), BucketAt(0));
    forall x: nat
      ensures Cover([], x) == if Owns(s.own, x, Free(BucketTable(0))) then 1 else 0
    {
      if x < |s.own| {
        assert Rightful(x, s.own[x], b, spare);
      }
    }
  }

  /** Owners that are no concern of the allocator. */
  ghost predicate Outside(o: Owner) {
    match o
    case Directory => true
    case OldDirectory(_) => true
    case BucketAt(_) => true
    case Record(_) => true
    case Reserved => true
    case Free(BucketTable(a)) => a != 0
    case _ => false
  }

  ghost predicate OutsideOnly(own: seq<Owner>, own': seq<Owner>) {
    |own'| == |own| && forall x :: 0 <= x < |own| && own'[x] != own[x] ==> Outside(own[x]) && Outside(own'[x])
  }

  lemma OutsideMoved(s: State, own': seq<Owner>, blockSize: nat, capacity: nat)
    requires SpaceOk(s, blockSize, capacity) && OutsideOnly(s.own, own')
    ensures SpaceOk(s.(own := own'), blockSize, capacity) && (Settled(s.own) ==> Settled(own'))
  {
    hide StackOk, NoStray, Claims, Tidy;
    ClaimsElsewhere(s.own, own', s.avail, Free(HeaderTable));
    ClaimsElsewhere(s.own, own', s.av, Free(BucketTable(0)));
    ClaimsElsewhere(s.own, own', s.slivers, Sliver);
    StackKept(s.file, s.own, s.file, own', capacity, s.stack, s.pending);
    StrayKept(s.own, own', capacity, s.stack);
  }

  /** The file changes, but not where spilled tables are. */
  lemma SpaceFileMoved(s: State, file': seq<Cell>, blockSize: nat, capacity: nat)
    requires SpaceOk(s, blockSize, capacity) && |s.file| <= |file'| <= |s.own|
    requires forall x :: 0 <= x < |s.file| && x < |s.own| && s.own[x].AvailBlockAt? ==> file'[x] == s.file[x]
    ensures SpaceOk(s.(file := file'), blockSize, capacity)
  {
    hide StackOk, NoStray, Claims, Tidy;
    StackKept(s.file, s.own, file', s.own, capacity, s.stack, s.pending);
  }

  // ----- buckets in the cache -----

  lemma AllottedFramed(own: seq<Owner>, own': seq<Owner>, buckets: map<nat, Bucket>, size: nat, cur: nat)
    requires Allotted(own, buckets, size) && |own| <= |own'|
    requires forall x :: 0 <= x < |own| && own[x].BucketAt? ==> own'[x] == own[x]
    ensures Allotted(own', buckets, size)
  {
  }

  lemma StoredFramed(own: seq<Owner>, f: seq<Cell>, f': seq<Cell>, elems: Elements, buckets: map<nat, Bucket>,
                     open: set<nat>, size: nat)
    requires Allotted(own, buckets, size) && Stored(f, elems, buckets, open, size)
    requires |f| <= |f'| && forall x :: 0 <= x < |f| && x < |own| && own[x].BucketAt? ==> f'[x] == f[x]
    ensures Stored(f', elems, buckets, open, size)
  {
    forall a | a in buckets && a !in open && !DirtyAt(elems, a)
      ensures Holds(f', a, BucketCells(buckets[a], size))
    {
      assert Given(own, Region(a, size), BucketAt(a));
      HoldsFramed(own, f, f', Region(a, size), BucketAt(a), BucketCells(buckets[a], size));
    }
  }

  // ----- the key/data pair cached with a bucket -----

  /** The pair is that of some key whose slot is where the pair says. */
  ghost predicate Matches(d: CachedData, t: seq<Slot>, data: map<Key, Value>, loc: map<Key, Slot>) {
    d.Data? ==> exists k :: MatchesKey(d, t, data, loc, k)
  }

  ghost predicate MatchesKey(d: CachedData, t: seq<Slot>, data: map<Key, Value>, loc: map<Key, Slot>, k: Key) {
    && d.Data? && k in data && k in loc && d.loc < |t| && t[d.loc] == loc[k]
    && d.hash == Hash(k) && d.keySize == |k| && d.bytes == k + data[k]
  }

  /** Every pair cached with a live bucket outside `open` is right. */
  ghost predicate PairsOk(elems: Elements, lru: seq<nat>, buckets: map<nat, Bucket>, data: map<Key, Value>,
                          loc: map<Key, Slot>, open: set<nat>)
    requires Listed(elems, lru)
  {
    forall id :: id in elems && elems[id].adr in buckets && elems[id].adr !in open && Leading(elems, lru, id) ==>
      Matches(elems[id].data, buckets[elems[id].adr].table, data, loc)
  }

  /** `id` entered the list at position `i`; elements at the far end may have left it. */
  ghost predicate Admitted(lru0: seq<nat>, lru: seq<nat>, i: nat, id: nat) {
    i < |lru| && i <= |lru0| && lru[..i] == lru0[..i] && lru[i] == id && lru[i + 1..] <= lru0[i..]
  }

  lemma AdmittedLeaders(elems0: Elements, lru0: seq<nat>, elems: Elements, lru: seq<nat>, i: nat, id: nat, x: nat)
    requires Listed(elems0, lru0) && Listed(elems, lru) && Admitted(lru0, lru, i, id) && id !in elems0
    requires x in elems && x != id && Leading(elems, lru, x) && forall y :: y in elems && y != id ==>
              y in elems0 && elems0[y].adr == elems[y].adr
    ensures Leading(elems0, lru0, x)
  {
    forall y | y in elems0 && y != x && elems0[y].adr == elems0[x].adr
      ensures IndexOf(lru0, x) < IndexOf(lru0, y)
    {
      AdmittedIndex(lru0, lru, i, id, x);
      if y in elems {
        AdmittedIndex(lru0, lru, i, id, y);
      } else {
        AdmittedGone(lru0, lru, i, id, y);
      }
    }
  }

  lemma AdmittedIndex(lru0: seq<nat>, lru: seq<nat>, i: nat, id: nat, x: nat)
    requires Distinct(lru0) && Distinct(lru) && Admitted(lru0, lru, i, id) && x in lru && x != id
    ensures x in lru0 && IndexOf(lru, x) == IndexOf(lru0, x) + if i <= IndexOf(lru0, x) then 1 else 0
    ensures IndexOf(lru0, x) < |lru| - 1
  {
    hide IndexOf;
    var q := IndexOf(lru, x);
    if q < i {
      assert lru[..i][q] == lru0[..i][q];
      IndexUnique(lru0, q);
    } else {
      assert lru[i + 1..][q - i - 1] == lru0[i..][q - i - 1];
      IndexUnique(lru0, q - 1);
    }
  }

  lemma AdmittedGone(lru0: seq<nat>, lru: seq<nat>, i: nat, id: nat, y: nat)
    requires Distinct(lru0) && Distinct(lru) && Admitted(lru0, lru, i, id) && y in lru0
    ensures IndexOf(lru0, y) < |lru| - 1 ==> y in lru
  {
    hide IndexOf;
    var q := IndexOf(lru0, y);
    if q < i {
      assert lru[..i][q] == lru0[..i][q] && lru[q] == y;
    } else if q < |lru| - 1 {
      assert lru[i + 1..][q - i] == lru0[i..][q - i] && lru[q + 1] == y;
    }
  }

  ghost predicate SameData(e: Element, e': Element) {
    e'.adr == e.adr && (e'.data == e.data || e'.data == NoData)
  }

  /** A new element has nothing cached yet. */
  lemma PairsAdmitted(elems0: Elements, lru0: seq<nat>, elems: Elements, lru: seq<nat>, i: nat, id: nat,
                      buckets: map<nat, Bucket>, data: map<Key, Value>, loc: map<Key, Slot>, open: set<nat>)
    requires Listed(elems0, lru0) && Listed(elems, lru) && Admitted(lru0, lru, i, id) && id !in elems0
    requires forall x :: x in elems && x != id ==> x in elems0 && SameData(elems0[x], elems[x])
    requires id in elems && elems[id].data == NoData && PairsOk(elems0, lru0, buckets, data, loc, open)
    ensures PairsOk(elems, lru, buckets, data, loc, open)
  {
    hide IndexOf, Leading, Distinct;
    forall x | x in elems && x != id && Leading(elems, lru, x)
      ensures Leading(elems0, lru0, x)
    {
      AdmittedLeaders(elems0, lru0, elems, lru, i, id, x);
    }
  }

  lemma PairsPromoted(elems0: Elements, lru0: seq<nat>, elems: Elements, lru: seq<nat>, rest: seq<nat>, id: nat,
                      buckets: map<nat, Bucket>, data: map<Key, Value>, loc: map<Key, Slot>, open: set<nat>)
    requires Listed(elems0, lru0) && Listed(elems, lru) && id in elems0 && Unlinked(lru0, id, rest)
    requires LinkedAt(rest, 0, id, lru)
    requires forall x :: x in elems ==> x in elems0 && SameData(elems0[x], elems[x])
    requires Leading(elems0, lru0, id) && PairsOk(elems0, lru0, buckets, data, loc, open)
    ensures PairsOk(elems, lru, buckets, data, loc, open)
  {
    hide IndexOf, Leading, Distinct, LinkedAt, Unlinked;
    forall x | x in elems && x != id && Leading(elems, lru, x)
      ensures Leading(elems0, lru0, x)
    {
      PromotedLeader(elems0, lru0, elems, lru, rest, id, x);
    }
  }

  lemma PromotedLeader(elems0: Elements, lru0: seq<nat>, elems: Elements, lru: seq<nat>, rest: seq<nat>, id: nat,
                       x: nat)
    requires Listed(elems0, lru0) && Listed(elems, lru) && Unlinked(lru0, id, rest) && LinkedAt(rest, 0, id, lru)
    requires forall y :: y in elems ==> y in elems0 && elems0[y].adr == elems[y].adr
    requires x in elems && x != id && Leading(elems, lru, x)
    ensures Leading(elems0, lru0, x)
  {
    hide IndexOf;
    forall y | y in elems0 && y != x && elems0[y].adr == elems0[x].adr
      ensures IndexOf(lru0, x) < IndexOf(lru0, y)
    {
      assert IndexOf(lru, x) < IndexOf(lru, y);
    }
  }

  // ----- space changes hands -----

  ghost predicate Plain(o: Owner) {
    o.Directory? || o.OldDirectory? || o.Record? || o.Reserved?
  }

  /** Only bytes of records, directories and reserved regions change hands. */
  ghost predicate PlainOnly(own: seq<Owner>, own': seq<Owner>) {
    |own'| == |own| && forall x :: 0 <= x < |own| && own'[x] != own[x] ==> Plain(own[x]) && Plain(own'[x])
  }

  lemma PlainMoved(own: seq<Owner>, own': seq<Owner>, buckets: map<nat, Bucket>, size: nat)
    requires PlainOnly(own, own') && Tabs(own, buckets) && Allotted(own, buckets, size)
    ensures Tabs(own', buckets) && Allotted(own', buckets, size) && OutsideOnly(own, own')
  {
    forall a | a in buckets
      ensures TableOk(own', buckets[a].avail, BucketTable(a))
    {
      ClaimsElsewhere(own, own', buckets[a].avail, Free(BucketTable(a)));
    }
  }

  lemma PaintPlain(own: seq<Owner>, r: Region, from: Owner, to: Owner)
    requires Given(own, r, from) && Plain(from) && Plain(to)
    ensures PlainOnly(own, Paint(own, r.adr, r.len, to))
  {
  }

  /** The spare region becomes the record of a key that is not stored yet, or whose record is lost. */
  lemma RecordReceived(w: World, young: set<nat>, r: Region, lost: set<Key>, k: Key)
    requires w.Sound(young, r, lost) && k !in w.recs && (k in w.data ==> k in lost)
    requires Allotted(w.own, w.buckets, w.size)
    ensures var own' := Paint(w.own, r.adr, r.len, Record(k));
            && w.(own := own', recs := w.recs[k := r]).Sound(young, NOTHING, lost)
            && OutsideOnly(w.own, own') && Allotted(own', w.buckets, w.size)
  {
    hide Catalog.Ok, Recorded, Tabs;
    var own' := Paint(w.own, r.adr, r.len, Record(k));
    PaintPlain(w.own, r, Reserved, Record(k));
    hide Balanced;
    PlainMoved(w.own, own', w.buckets, w.size);
    RecordGranted(w.own, w.Account(), r, k);
    RecordsExcept(w, lost, k, r);
  }

  lemma RecordsExcept(w: World, lost: set<Key>, k: Key, r: Region)
    requires Recorded(w.file, w.recs, w.data, w.loc, lost) && (k in w.data ==> k in lost)
    ensures Recorded(w.file, w.recs[k := r], w.data, w.loc, lost) && Recorded(w.file, w.recs - {k}, w.data, w.loc, lost)
  {
    forall l | l in w.data && l !in lost
      ensures RecordOk(w.file, w.recs[k := r], w.data, w.loc, l) && RecordOk(w.file, w.recs - {k}, w.data, w.loc, l)
    {
      assert RecordOk(w.file, w.recs, w.data, w.loc, l);
    }
  }

  /** The record of a key is given up. */
  lemma RecordGivenUp(w: World, young: set<nat>, lost: set<Key>, k: Key)
    requires w.Sound(young, NOTHING, lost) && k in w.recs && Allotted(w.own, w.buckets, w.size)
    ensures var r := w.recs[k];
            var own' := Paint(w.own, r.adr, r.len, Reserved);
            && w.(own := own', recs := w.recs - {k}).Sound(young, r, lost + {k})
            && OutsideOnly(w.own, own') && Allotted(own', w.buckets, w.size)
  {
    hide Catalog.Ok, Recorded, Tabs;
    var r := w.recs[k];
    var own' := Paint(w.own, r.adr, r.len, Reserved);
    assert Given(w.own, r, Record(k));
    PaintPlain(w.own, r, Record(k), Reserved);
    hide Balanced;
    PlainMoved(w.own, own', w.buckets, w.size);
    RecordReturned(w.own, w.Account(), k);
    LoseMore(w.file, w.recs, w.data, w.loc, lost, lost + {k});
    RecordsExcept(w, lost + {k}, k, r);
  }

  lemma LoseMore(f: seq<Cell>, recs: map<Key, Region>, data: map<Key, Value>, loc: map<Key, Slot>, lost: set<Key>,
                 lost': set<Key>)
    requires Recorded(f, recs, data, loc, lost) && lost <= lost'
    ensures Recorded(f, recs, data, loc, lost')
  {
  }

  // ----- writing to the bytes of one owner -----

  ghost predicate OnlyOwner(own: seq<Owner>, f: seq<Cell>, f': seq<Cell>, o: Owner) {
    && |f| <= |f'| && (|f'| <= |own| || |f'| == |f|)
    && forall x :: 0 <= x < |f| && x < |own| && own[x] != o ==> f'[x] == f[x]
  }

  lemma RegionWritten(own: seq<Owner>, f: seq<Cell>, r: Region, o: Owner, c: seq<Cell>)
    requires Given(own, r, o) && |c| <= r.len
    ensures OnlyOwner(own, f, Write(f, r.adr, c), o)
  {
  }

  /** What such a write leaves alone. */
  lemma OwnerWrote(w: World, file': seq<Cell>, s: State, o: Owner, elems: Elements, open: set<nat>, young: set<nat>,
                   spare: Region, lost: set<Key>, capacity: nat)
    requires w.Sound(young, spare, lost) && OnlyOwner(w.own, w.file, file', o)
    requires (o.FileHeader? || o.Directory? || o.Record?)
    requires SpaceOk(s, w.size, capacity) && s.own == w.own && s.file == w.file
    requires Allotted(w.own, w.buckets, w.size) && Stored(w.file, elems, w.buckets, open, w.size)
    ensures !o.Record? ==> w.(file := file').Sound(young, spare, lost)
    ensures SpaceOk(s.(file := file'), w.size, capacity) && |w.file| <= |file'|
    ensures Stored(file', elems, w.buckets, open, w.size)
    ensures !o.Directory? && DirHeld(w.file, w.dirAdr, w.dir) ==> DirHeld(file', w.dirAdr, w.dir)
    ensures !o.FileHeader? ==> forall h :: HeaderHeld(w.file, h, w.size) ==> HeaderHeld(file', h, w.size)
  {
    hide Catalog.Ok, Tabs, Recorded, State.Ok, SpaceOk;
    HeaderOwned(s, w.size, capacity);
    hide World.Sound;
    SpaceFileMoved(s, file', w.size, capacity);
    StoredFramed(w.own, w.file, file', elems, w.buckets, open, w.size);
    if !o.Record? {
      FileMoved(w, file', young, spare, lost);
    }
    if !o.Directory? {
      DirFramed(w, file', young, spare, lost);
    }
    if !o.FileHeader? {
      HeaderFramed(w.own, w.file, file', w.size);
    }
  }

  lemma HeaderOwned(s: State, blockSize: nat, capacity: nat)
    requires SpaceOk(s, blockSize, capacity)
    ensures Painted(s.own, 0, blockSize, FileHeader) && |s.file| <= |s.own|
  {
  }

  /** The directory is on disk. */
  ghost predicate DirHeld(f: seq<Cell>, adr: nat, dir: seq<nat>) {
    Holds(f, adr, ImageCells(DirImage(dir), |dir| * SIZEOF_OFF_T))
  }

  /** The header block is up to date. */
  ghost predicate HeaderHeld(f: seq<Cell>, h: Header, blockSize: nat) {
    Holds(f, 0, ImageCells(HeaderImage(h), blockSize))
  }

  lemma DirFramed(w: World, file': seq<Cell>, young: set<nat>, spare: Region, lost: set<Key>)
    requires w.Sound(young, spare, lost) && |w.file| <= |file'|
    requires forall x :: 0 <= x < |w.file| && x < |w.own| && w.own[x].Directory? ==> file'[x] == w.file[x]
    ensures DirHeld(w.file, w.dirAdr, w.dir) ==> DirHeld(file', w.dirAdr, w.dir)
  {
    hide Catalog.Ok, Tabs, Recorded;
    var r := w.Account().dir;
    assert Given(w.own, r, Owner.Directory);
    if DirHeld(w.file, w.dirAdr, w.dir) {
      HoldsFramed(w.own, w.file, file', r, Owner.Directory, ImageCells(DirImage(w.dir), r.len));
    }
  }

  lemma HeaderFramed(own: seq<Owner>, f: seq<Cell>, f': seq<Cell>, size: nat)
    requires Painted(own, 0, size, FileHeader) && |f| <= |f'|
    requires forall x :: 0 <= x < |f| && x < |own| && own[x].FileHeader? ==> f'[x] == f[x]
    ensures forall h :: HeaderHeld(f, h, size) ==> HeaderHeld(f', h, size)
  {
    assert Given(own, Region(0, size), FileHeader);
    forall h | HeaderHeld(f, h, size)
      ensures HeaderHeld(f', h, size)
    {
      HoldsFramed(own, f, f', Region(0, size), FileHeader, ImageCells(HeaderImage(h), size));
    }
  }

  // ----- the contents of the current bucket change -----

  /** Two maps differ at most at `k`. */
  ghost predicate SameBut<T>(m: map<Key, T>, m': map<Key, T>, k: Key) {
    forall l :: l != k ==> (l in m <==> l in m') && (l in m ==> m[l] == m'[l])
  }

  /** Pairs cached with other buckets belong to other keys. */
  lemma PairsRekeyed(w: World, elems: Elements, lru: seq<nat>, cur: nat, k: Key, data': map<Key, Value>,
                     loc': map<Key, Slot>, lost: set<Key>)
    requires Listed(elems, lru) && w.Sound({}, NOTHING, lost) && PairsOk(elems, lru, w.buckets, w.data, w.loc, {cur})
    requires cur == LookUp(w.dir, w.dirBits, Hash(k)) && SameBut(w.data, data', k) && SameBut(w.loc, loc', k)
    ensures PairsOk(elems, lru, w.buckets, data', loc', {cur})
  {
    hide Leading, World.Sound, Hash, LookUp, Matches;
    forall a, d | a in w.buckets && a != cur && Matches(d, w.buckets[a].table, w.data, w.loc)
      ensures Matches(d, w.buckets[a].table, data', loc')
    {
      PairRekeyed(w, a, d, k, data', loc', lost);
    }
  }

  lemma PairRekeyed(w: World, a: nat, d: CachedData, k: Key, data': map<Key, Value>, loc': map<Key, Slot>,
                    lost: set<Key>)
    requires w.Sound({}, NOTHING, lost) && a in w.buckets && a != LookUp(w.dir, w.dirBits, Hash(k))
    requires Matches(d, w.buckets[a].table, w.data, w.loc) && SameBut(w.data, data', k) && SameBut(w.loc, loc', k)
    ensures Matches(d, w.buckets[a].table, data', loc')
  {
    hide World.Sound, Hash, LookUp;
    if d.Data? {
      var l :| MatchesKey(d, w.buckets[a].table, w.data, w.loc, l);
      OwnBucket(w, a, l, lost);
      assert MatchesKey(d, w.buckets[a].table, data', loc', l);
    }
  }

  lemma OwnBucket(w: World, a: nat, l: Key, lost: set<Key>)
    requires w.Sound({}, NOTHING, lost) && a in w.buckets && l in w.data && l in w.loc && w.loc[l] in w.buckets[a].table
    ensures LookUp(w.dir, w.dirBits, Hash(l)) == a
  {
    hide Balanced, Tabs, Recorded, Hash, LookUp, Catalog.Shaped;
    assert w.buckets - {} == w.buckets;
    assert w.Content({}).KeyPlaced(l);
    assert w.Content({}).SlotPlaced(a, w.loc[l]);
  }

  /** The table of a bucket from which one slot has been removed. */
  lemma SlotRemoved(b: Bucket, n: nat, slot: Slot, t: seq<Slot>)
    requires BucketOk(b, n) && slot in b.table && slot.Elem? && |t| == n && Probeable(t)
    requires multiset(t) == multiset(b.table) - multiset{slot} + multiset{Empty}
    ensures b.count > 0 && BucketOk(b.(table := t, count := b.count - 1), n)
    ensures forall s: Slot :: s.Elem? ==> (s in t <==> s in b.table && s != slot)
  {
    hide Probeable;
    forall s: Slot | s.Elem?
      ensures s in t <==> s in b.table && s != slot
      ensures s in t ==> multiset(t)[s] == 1
    {
      assert s in t <==> s in multiset(t);
      assert s in b.table <==> s in multiset(b.table);
    }
    assert slot in multiset(b.table) && multiset(b.table)[slot] == 1;
    Counts(b.table, slot);
  }

  lemma Counts(t: seq<Slot>, slot: Slot)
    requires slot in t && slot.Elem?
    ensures multiset(t)[Empty] < |t|
  {
    assert |multiset(t)| == |t|;
    assert multiset(t) - multiset{slot} >= multiset{};
    var rest := multiset(t) - multiset{slot};
    assert |rest| == |t| - 1;
    assert |rest[Empty := 0]| == |rest| - rest[Empty];
  }

  /** Deleting a key: its slot leaves the table. */
  lemma KeyRemoved(w: World, cur: nat, k: Key, t: seq<Slot>)
    requires w.Sound({}, NOTHING, {}) && k in w.data && k in w.loc && cur == LookUp(w.dir, w.dirBits, Hash(k))
    requires cur in w.buckets
    requires w.loc[k] in w.buckets[cur].table && w.loc[k].Elem? && |t| == w.slots && Probeable(t)
    requires multiset(t) == multiset(w.buckets[cur].table) - multiset{w.loc[k]} + multiset{Empty}
    ensures w.buckets[cur].count > 0
    ensures var b := w.buckets[cur];
            w.(buckets := w.buckets[cur := b.(table := t, count := b.count - 1)], data := w.data - {k},
                loc := w.loc - {k}).Sound({}, NOTHING, {})
  {
    hide Balanced, Hash, LookUp, Catalog.Ok, Probeable, Tabs, Recorded, BucketOk;
    var b := w.buckets[cur];
    assert w.buckets - {} == w.buckets;
    BucketShape(w.Content({}), w.slots, cur);
    SlotRemoved(b, w.slots, w.loc[k], t);
    var b' := b.(table := t, count := b.count - 1);
    assert Retabled(w.Content({}), k, b', Empty);
    Removed(w.Content({}), w.slots, k, b');
    hide Retabled;
    var w' := w.(buckets := w.buckets[cur := b'], data := w.data - {k}, loc := w.loc - {k});
    assert w'.buckets - {} == w'.buckets;
    assert w'.Account() == w.Account();
    TabsSame(w.own, w.buckets, cur, b');
    RecordsLess(w, k);
  }

  lemma BucketShape(s: Catalog, n: nat, a: nat)
    requires s.Ok(n) && a in s.buckets
    ensures BucketOk(s.buckets[a], n)
  {
    hide BucketOk, Catalog.Filled;
  }

  lemma TabsSame(own: seq<Owner>, buckets: map<nat, Bucket>, a: nat, b: Bucket)
    requires Tabs(own, buckets) && a in buckets && b.avail == buckets[a].avail
    ensures Tabs(own, buckets[a := b])
  {
    hide TableOk;
  }

  lemma RecordsLess(w: World, k: Key)
    requires Recorded(w.file, w.recs, w.data, w.loc, {})
    ensures Recorded(w.file, w.recs, w.data - {k}, w.loc - {k}, {})
  {
    assert forall l :: l in w.data && l != k ==> RecordOk(w.file, w.recs, w.data, w.loc, l);
  }

  lemma FoundAgain(w: World, lost: set<Key>, spare: Region)
    requires w.Sound({}, spare, lost) && forall k :: k in lost ==> k !in w.data
    ensures w.Sound({}, spare, {})
  {
    hide Balanced, Catalog.Ok, Tabs;
  }

  // ----- storing a key -----

  /** A slot for `k`, whose region is the one on the books, is nobody else's. */
  lemma SlotUnique(w: World, k: Key, v: Value, slot: Slot, lost: set<Key>, l: Key)
    requires w.Sound({}, NOTHING, lost) && lost <= {k} && Describes(slot, k, v) && k in w.recs
    requires w.recs[k] == Extent(slot)
    requires l in w.data && l != k
    ensures l in w.loc && w.loc[l] != slot
  {
    hide Catalog.Shaped, Tabs, Hash, LookUp, Catalog.SlotPlaced;
    assert w.buckets - {} == w.buckets;
    assert w.Content({}).KeyPlaced(l);
    assert RecordOk(w.file, w.recs, w.data, w.loc, l);
    assert Given(w.own, w.recs[l], Record(l)) && Given(w.own, w.recs[k], Record(k));
    assert |k| > 0 ==> w.own[slot.ptr] == Record(k);
  }

  /** The slot at `i` of a table is overwritten by one with the same hash. */
  lemma SlotReplaced(b: Bucket, n: nat, i: nat, slot: Slot)
    requires BucketOk(b, n) && i < n && b.table[i].Elem? && slot.Elem? && slot.hash == b.table[i].hash
    requires slot in b.table ==> slot == b.table[i]
    ensures BucketOk(b.(table := b.table[i := slot]), n)
    ensures forall s: Slot :: s.Elem? ==> (s in b.table[i := slot] <==> s == slot || (s in b.table && s != b.table[i]))
  {
    var t, u := b.table, b.table[i := slot];
    forall j | 0 <= j < n && u[j].Elem?
      ensures Reachable(u, j)
    {
      assert Reachable(t, j);
    }
    assert multiset(u) == multiset(t) - multiset{t[i]} + multiset{slot};
    forall s: Slot | s.Elem?
      ensures s in u <==> s == slot || (s in t && s != t[i])
      ensures s in u ==> multiset(u)[s] == 1
    {
      assert (s in u <==> s in multiset(u)) && (s in t <==> s in multiset(t)) && t[i] in t && u[i] == slot;
      assert s !in t ==> multiset(t)[s] == 0;
      assert s in t ==> multiset(t)[s] == 1;
    }
  }

  /** A slot is put where probing for its hash ends. */
  lemma SlotInserted(b: Bucket, n: nat, i: nat, slot: Slot)
    requires BucketOk(b, n) && i < n && b.table[i].Empty? && slot.Elem? && slot !in b.table
    requires forall x :: 0 <= x < n && OnPath(slot.hash % n, x, i, n) ==> b.table[x].Elem?
    ensures BucketOk(b.(table := b.table[i := slot], count := b.count + 1), n)
    ensures forall s: Slot :: s.Elem? ==> (s in b.table[i := slot] <==> s == slot || s in b.table)
  {
    hide Probeable, Reachable;
    var t, u := b.table, b.table[i := slot];
    HashTable.Inserted(t, i, slot);
    forall s: Slot | s.Elem?
      ensures s in u <==> s == slot || s in t
      ensures s in u ==> multiset(u)[s] == 1
    {
      assert (s in u <==> s in multiset(u)) && (s in t <==> s in multiset(t));
      assert s !in t ==> multiset(t)[s] == 0;
      assert s in t ==> multiset(t)[s] == 1;
    }
  }

  /** A key is entered in its bucket; its record is still to be written. */
  lemma KeyEntered(w: World, cur: nat, k: Key, v: Value, slot: Slot, b: Bucket, lost: set<Key>)
    requires w.Sound({}, NOTHING, lost) && lost <= {k} && cur == LookUp(w.dir, w.dirBits, Hash(k)) && cur in w.buckets
    requires Describes(slot, k, v) && k in w.recs && w.recs[k] == Extent(slot)
    requires BucketOk(b, w.slots) && b.bits == w.buckets[cur].bits && b.avail == w.buckets[cur].avail
    requires forall s: Slot :: s.Elem? ==>
              (s in b.table <==> s == slot || (s in w.buckets[cur].table && (k in w.loc ==> s != w.loc[k])))
    ensures w.(buckets := w.buckets[cur := b], data := w.data[k := v], loc := w.loc[k := slot]).Sound({}, NOTHING, {k})
  {
    hide Balanced, Hash, LookUp, Catalog.Ok, Probeable, Tabs, Recorded, BucketOk, Describes;
    assert w.buckets - {} == w.buckets;
    assert Retabled(w.Content({}), k, b, slot);
    SlotOwnKey(w, k, v, slot, lost);
    Entered(w.Content({}), w.slots, k, v, slot, b);
    hide Retabled;
    var w' := w.(buckets := w.buckets[cur := b], data := w.data[k := v], loc := w.loc[k := slot]);
    assert w'.buckets - {} == w'.buckets;
    assert w'.Account() == w.Account();
    TabsSame(w.own, w.buckets, cur, b);
    RecordsMore(w, k, v, slot, lost);
  }

  lemma SlotOwnKey(w: World, k: Key, v: Value, slot: Slot, lost: set<Key>)
    requires w.Sound({}, NOTHING, lost) && lost <= {k} && Describes(slot, k, v) && k in w.recs
    requires w.recs[k] == Extent(slot)
    ensures slot in w.loc.Values ==> k in w.loc && slot == w.loc[k]
    ensures w.loc.Keys == w.data.Keys
  {
    hide Balanced, Hash, LookUp, Catalog.Shaped, Tabs, Recorded, Describes, Catalog.KeyPlaced, Catalog.SlotPlaced;
    if slot in w.loc.Values {
      var l :| l in w.loc && w.loc[l] == slot;
      if l != k {
        SlotUnique(w, k, v, slot, lost, l);
      }
    }
  }

  lemma RecordsMore(w: World, k: Key, v: Value, slot: Slot, lost: set<Key>)
    requires Recorded(w.file, w.recs, w.data, w.loc, lost) && lost <= {k}
    ensures Recorded(w.file, w.recs, w.data[k := v], w.loc[k := slot], {k})
  {
    assert forall l :: l in w.data && l != k ==> RecordOk(w.file, w.recs, w.data, w.loc, l);
  }

  /** The record of `k` is written. */
  lemma KeyWritten(w: World, k: Key, file': seq<Cell>)
    requires w.Sound({}, NOTHING, {k}) && k in w.data && k in w.loc && k in w.recs && w.recs[k] == Extent(w.loc[k])
    requires OnlyOwner(w.own, w.file, file', Record(k)) && OnDisk(file', w.recs[k], k + w.data[k])
    ensures w.(file := file').Sound({}, NOTHING, {})
  {
    hide Catalog.Ok, Tabs;
    forall l | l in w.data && l != k
      ensures RecordOk(file', w.recs, w.data, w.loc, l)
    {
      assert RecordOk(w.file, w.recs, w.data, w.loc, l);
      assert Given(w.own, w.recs[l], Record(l));
      if |l + w.data[l]| > 0 {
        HoldsFramed(w.own, w.file, file', w.recs[l], Record(l), RawCells(l + w.data[l]));
      }
    }
  }
}
