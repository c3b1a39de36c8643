/**
 What the splitting of a bucket (_gdbm_split_bucket in src/bucket.c) does to a database, step
 by step.
 */
module Splitting {
  import opened Bits
  import opened AvailTable
  import opened Layout
  import opened Space
  import opened HashTable
  import opened Directory
  import opened Cache
  import opened Content
  import opened Ledger
  import opened Integrity

  /** _gdbm_new_bucket */
  function NewBucket(bits: nat, n: nat): (b: Bucket)
    ensures b.avail == [] && b.bits == bits && b.count == 0 && b.table == EmptySlots(n)
  {
    Bucket([], bits, 0, EmptySlots(n))
  }

  function EmptySlots(n: nat): (t: seq<Slot>)
    ensures |t| == n && forall i :: 0 <= i < n ==> t[i] == Empty
  {
    seq(n, _ => Empty)
  }

  /** The spare region becomes a bucket, which the directory does not know yet. */
  lemma BucketBorn(w: World, young: set<nat>, adr: nat, b: Bucket)
    requires w.Sound(young, Region(adr, w.size), {}) && Allotted(w.own, w.buckets, w.size) && b.avail == [] && adr > 0
    ensures adr !in w.buckets
    ensures var own' := Paint(w.own, adr, w.size, BucketAt(adr));
            && w.(own := own', buckets := w.buckets[adr := b]).Sound(young + {adr}, NOTHING, {})
            && OutsideOnly(w.own, own') && Allotted(own', w.buckets[adr := b], w.size)
  {
    hide Catalog.Ok, Recorded, TableOk, Rightful;
    var own', r := Paint(w.own, adr, w.size, BucketAt(adr)), Region(adr, w.size);
    assert Given(w.own, r, Reserved);
    BucketGranted(w.own, w.Account(), adr);
    NoTable(w, young, adr, r);
    hide Balanced;
    var w' := w.(own := own', buckets := w.buckets[adr := b]);
    assert w'.Account() == w.Account().(buckets := w.Account().buckets + {adr});
    forall a | a in w'.buckets
      ensures TableOk(own', w'.buckets[a].avail, BucketTable(a)) && |w'.buckets[a].avail| <= BUCKET_AVAIL
    {
      if a == adr {
        EmptyTable(own', BucketTable(adr));
      } else {
        KeptTable(w.own, own', w.buckets[a].avail, BucketTable(a));
      }
    }
    assert w'.buckets - (young + {adr}) == w.buckets - young;
  }

  lemma NoTable(w: World, young: set<nat>, adr: nat, spare: Region)
    requires w.Sound(young, spare, {}) && adr !in w.buckets
    ensures forall x :: 0 <= x < |w.own| ==> w.own[x] != Free(BucketTable(adr))
  {
    hide Catalog.Ok, Recorded, Tabs;
    forall x | 0 <= x < |w.own|
      ensures w.own[x] != Free(BucketTable(adr))
    {
      assert Rightful(x, w.own[x], w.Account(), spare);
    }
  }

  lemma EmptyTable(own: seq<Owner>, tab: Table)
    requires forall x :: 0 <= x < |own| ==> own[x] != Free(tab)
    ensures TableOk(own, [], tab)
  {
  }

  lemma KeptTable(own: seq<Owner>, own': seq<Owner>, t: seq<Avail>, tab: Table)
    requires TableOk(own, t, tab) && |own'| == |own|
    requires forall x :: 0 <= x < |own| ==> (own'[x] == Free(tab) <==> own[x] == Free(tab))
    ensures TableOk(own', t, tab)
  {
    ClaimsElsewhere(own, own', t, Free(tab));
  }

  /** The spare region becomes the directory, doubled. */
  lemma DirectoryGrown(w: World, young: set<nat>, r: Region, n: nat)
    requires w.Sound(young, r, {}) && Allotted(w.own, w.buckets, w.size) && n !in w.olds
    requires r.len == 2 * w.Account().dir.len && w.dirBits < HASH_BITS
    ensures var own' := GrownOwners(w, r, n);
            && GrownWorld(w, r, n).Sound(young, NOTHING, {})
            && OutsideOnly(w.own, own') && Allotted(own', w.buckets, w.size)
  {
    hide Catalog.Ok, Recorded, Tabs, Rightful, Pow2;
    var own1, own' := Paint(w.own, w.dirAdr, |w.dir| * SIZEOF_OFF_T, OldDirectory(n)), GrownOwners(w, r, n);
    assert Given(w.own, w.Account().dir, Owner.Directory) && Given(w.own, r, Reserved);
    DirectoryMoved(w.own, w.Account(), r, n);
    hide Balanced;
    assert PlainOnly(w.own, own');
    PlainMoved(w.own, own', w.buckets, w.size);
    StoreDoubled(w.Content(young), w.slots);
    assert |Doubled(w.dir)| * SIZEOF_OFF_T == r.len;
  }

  ghost function GrownWorld(w: World, r: Region, n: nat): World {
    w.(own := GrownOwners(w, r, n), dirAdr := r.adr, dir := Doubled(w.dir), dirBits := w.dirBits + 1,
       olds := w.olds[n := w.Account().dir])
  }

  ghost function GrownOwners(w: World, r: Region, n: nat): (own: seq<Owner>)
    ensures |own| == |w.own|
  {
    Paint(Paint(w.own, w.dirAdr, |w.dir| * SIZEOF_OFF_T, OldDirectory(n)), r.adr, r.len, Owner.Directory)
  }

  /** Old directory `n` gives its space up. */
  lemma DirectoryGivenUp(w: World, n: nat)
    requires w.Sound({}, NOTHING, {}) && n in w.olds && Allotted(w.own, w.buckets, w.size)
    ensures var r := w.olds[n];
            var own' := Paint(w.own, r.adr, r.len, Reserved);
            && w.(own := own', olds := w.olds - {n}).Sound({}, r, {})
            && OutsideOnly(w.own, own') && Allotted(own', w.buckets, w.size)
  {
    hide Catalog.Ok, Recorded, Tabs;
    var r := w.olds[n];
    assert Given(w.own, r, OldDirectory(n));
    PaintPlain(w.own, r, OldDirectory(n), Reserved);
    hide Balanced;
    PlainMoved(w.own, Paint(w.own, r.adr, r.len, Reserved), w.buckets, w.size);
    DirectoryReturned(w.own, w.Account(), n);
  }

  // ----- redistribution of the elements -----

  ghost predicate OfBit(s: Slot, bits: nat, bit: nat)
    requires bits <= HASH_BITS
  {
    s.Elem? && Shr(s.hash, HASH_BITS - bits) % 2 == bit
  }

  /** `t` holds exactly the first `index` slots of `whole` whose next hash bit is `bit`. */
  ghost predicate Collected(whole: seq<Slot>, index: nat, bits: nat, bit: nat, t: seq<Slot>, count: nat)
    requires bits <= HASH_BITS && index <= |whole|
  {
    && |t| == |whole| && Probeable(t) && count == Occupied(t) && count <= index
    && (forall s :: s in t && s.Elem? ==> multiset(t)[s] == 1)
    && (forall s: Slot :: s.Elem? && s in t <==> s in whole[..index] && OfBit(s, bits, bit))
  }

  /** The copying loop: every element of a full bucket goes to the new bucket its next hash bit
      selects, by linear probing. */
  method Redistribute(whole: seq<Slot>, bits: nat) returns (t0: seq<Slot>, c0: nat, t1: seq<Slot>, c1: nat)
    requires 0 < bits <= HASH_BITS && |whole| > 0 && Empty !in whole
    requires forall s :: s in whole ==> multiset(whole)[s] == 1
    ensures Collected(whole, |whole|, bits, 0, t0, c0) && Collected(whole, |whole|, bits, 1, t1, c1)
    ensures c0 + c1 == |whole|
  {
    hide Collected, Shr;
    t0, c0, t1, c1 := EmptySlots(|whole|), 0, EmptySlots(|whole|), 0;
    NothingCollected(whole, bits, 0);
    NothingCollected(whole, bits, 1);
    var index := 0;
    while index < |whole|
      invariant index <= |whole| && c0 + c1 == index
      invariant Collected(whole, index, bits, 0, t0, c0) && Collected(whole, index, bits, 1, t1, c1)
    {
      var el := whole[index];
      assert el in whole;
      if Shr(el.hash, HASH_BITS - bits) % 2 == 1 {
        t1 := Place(whole, index, bits, 1, t1, c1);
        PassedOver(whole, index, bits, 0, t0, c0);
        c1 := c1 + 1;
      } else {
        t0 := Place(whole, index, bits, 0, t0, c0);
        PassedOver(whole, index, bits, 1, t1, c1);
        c0 := c0 + 1;
      }
      index := index + 1;
    }
  }

  lemma NothingCollected(whole: seq<Slot>, bits: nat, bit: nat)
    requires bits <= HASH_BITS
    ensures Collected(whole, 0, bits, bit, EmptySlots(|whole|), 0)
  {
    hide OfBit;
    var t := EmptySlots(|whole|);
    AllEmpty(t);
  }

  lemma {:induction false} AllEmpty(t: seq<Slot>)
    requires forall i :: 0 <= i < |t| ==> t[i] == Empty
    ensures multiset(t)[Empty] == |t|
  {
    if |t| > 0 {
      AllEmpty(t[1..]);
      assert t == [t[0]] + t[1..];
    }
  }

  lemma PassedOver(whole: seq<Slot>, index: nat, bits: nat, bit: nat, t: seq<Slot>, count: nat)
    requires bits <= HASH_BITS && index < |whole| && Collected(whole, index, bits, bit, t, count)
    requires !OfBit(whole[index], bits, bit)
    ensures Collected(whole, index + 1, bits, bit, t, count)
  {
    hide OfBit, Probeable;
    assert whole[..index + 1] == whole[..index] + [whole[index]];
  }

  /** One element is placed. */
  method Place(whole: seq<Slot>, index: nat, bits: nat, ghost bit: nat, t: seq<Slot>,
               ghost count: nat) returns (r: seq<Slot>)
    requires bits <= HASH_BITS && index < |whole| && Collected(whole, index, bits, bit, t, count)
    requires OfBit(whole[index], bits, bit)
    requires forall s :: s in whole ==> multiset(whole)[s] == 1
    ensures Collected(whole, index + 1, bits, bit, r, count + 1)
  {
    hide OfBit, Probeable, OnPath;
    var el := whole[index];
    assert el.Elem? by { ElemOfBit(el, bits, bit); }
    Room(t, count);
    var loc := FindEmpty(t, el.hash);
    HashTable.Inserted(t, loc, el);
    r := t[loc := el];
    NotBefore(whole, index);
    Placed(whole, index, bits, bit, t, count, loc, r);
  }

  lemma ElemOfBit(s: Slot, bits: nat, bit: nat)
    requires bits <= HASH_BITS && OfBit(s, bits, bit)
    ensures s.Elem?
  {
  }

  lemma Room(t: seq<Slot>, count: nat)
    requires count == Occupied(t) && count < |t|
    ensures Empty in t
  {
    assert Empty in multiset(t);
  }

  lemma NotBefore(whole: seq<Slot>, index: nat)
    requires index < |whole| && forall s :: s in whole ==> multiset(whole)[s] == 1
    ensures whole[index] !in whole[..index]
  {
    var el := whole[index];
    assert whole == whole[..index] + [el] + whole[index + 1..];
    assert multiset(whole) == multiset(whole[..index]) + multiset{el} + multiset(whole[index + 1..]);
    assert el in whole;
    assert multiset(whole[..index])[el] == 0;
  }

  lemma Placed(whole: seq<Slot>, index: nat, bits: nat, bit: nat, t: seq<Slot>, count: nat, loc: nat, r: seq<Slot>)
    requires bits <= HASH_BITS && index < |whole| && Collected(whole, index, bits, bit, t, count)
    requires OfBit(whole[index], bits, bit)
    requires whole[index].Elem? && whole[index] !in whole[..index] && loc < |t| && t[loc].Empty?
    requires r == t[loc := whole[index]]
    requires Probeable(r) && multiset(r) == multiset(t) - multiset{Empty} + multiset{whole[index]}
    requires Occupied(r) == Occupied(t) + 1
    ensures Collected(whole, index + 1, bits, bit, r, count + 1)
  {
    hide OfBit, Probeable;
    var el := whole[index];
    assert whole[..index + 1] == whole[..index] + [el];
    assert el !in t;
    forall s: Slot | s.Elem?
      ensures s in r <==> s == el || s in t
      ensures s in r ==> multiset(r)[s] == 1
    {
      assert (s in r <==> s in multiset(r)) && (s in t <==> s in multiset(t));
      assert s in t ==> multiset(t)[s] == 1;
      assert s !in t ==> multiset(t)[s] == 0;
    }
  }

  // ----- who owns what after a split -----

  /** The bytes of the old bucket, of its free table and of the spare region go to the free
      tables of the two new buckets. */
  ghost predicate HandedOver(own: seq<Owner>, own': seq<Owner>, cur: nat, adr0: nat, adr1: nat) {
    && |own'| == |own|
    && (forall x :: 0 <= x < |own| ==>
          if own[x] in {Reserved, BucketAt(cur), Free(BucketTable(cur))}
          then own'[x] in {Free(BucketTable(adr0)), Free(BucketTable(adr1))}
          else own'[x] == own[x] || (own[x] in {Free(BucketTable(adr0)),
              Free(BucketTable(adr1))} && own'[x] in {Free(BucketTable(adr0)), Free(BucketTable(adr1))}))
  }

  /** The database after the split. */
  ghost function SplitWorld(w: World, own': seq<Owner>, cur: nat, dir': seq<nat>, adr0: nat, adr1: nat, b0: Bucket,
                            b1: Bucket): World {
    w.(own := own', dir := dir', buckets := (w.buckets - {cur})[adr0 := b0][adr1 := b1])
  }

  lemma SplitBalanced(own: seq<Owner>, own': seq<Owner>, b: Books, spare: Region, cur: nat, adr0: nat, adr1: nat)
    requires Balanced(own, b, spare) && HandedOver(own, own', cur, adr0, adr1)
    requires cur != adr0 && cur != adr1 && adr0 in b.buckets && adr1 in b.buckets
    ensures Balanced(own', b.(buckets := b.buckets - {cur}), NOTHING)
  {
    var b' := b.(buckets := b.buckets - {cur});
    forall r, o | Given(own, r, o) && !o.Reserved? && o != BucketAt(cur) && !o.Free?
      ensures Given(own', r, o)
    {
      assert forall x :: r.adr <= x < r.adr + r.len ==> own[x] == o;
    }
    hide Given;
    forall x | 0 <= x < |own'|
      ensures Rightful(x, own'[x], b', NOTHING)
    {
      assert Rightful(x, own[x], b, spare);
    }
  }

  lemma OtherTable(own: seq<Owner>, own': seq<Owner>, cur: nat, adr0: nat, adr1: nat, t: seq<Avail>, a: nat)
    requires HandedOver(own, own', cur, adr0, adr1) && TableOk(own, t, BucketTable(a)) && a !in {cur, adr0, adr1}
    ensures TableOk(own', t, BucketTable(a))
  {
    hide TableOk;
    KeptTable(own, own', t, BucketTable(a));
  }

  /** A split keeps the database sound. */
  lemma SplitSound(w: World, own': seq<Owner>, spare: Region, cur: nat, i: nat, start0: nat, start1: nat, end: nat,
                   adr0: nat, adr1: nat, b0: Bucket, b1: Bucket)
    requires w.Sound({adr0, adr1}, spare, {}) && HandedOver(w.own, own', cur, adr0, adr1) && adr0 != adr1
    requires cur !in {adr0, adr1}
    requires adr0 in w.buckets && adr1 in w.buckets && i < |w.dir| && w.dir[i] == cur && cur in w.buckets
    requires Division(w.Content({adr0, adr1}), i, start0, start1, end, adr0, adr1, b0, b1)
    requires BucketOk(b0, w.slots) && BucketOk(b1, w.slots)
    requires TableOk(own', b0.avail, BucketTable(adr0)) && |b0.avail| <= BUCKET_AVAIL
    requires TableOk(own', b1.avail, BucketTable(adr1)) && |b1.avail| <= BUCKET_AVAIL
    ensures SplitWorld(w, own', cur, Divided(w.dir, start0, start1, end, adr0, adr1), adr0, adr1, b0, b1).Sound({},
              NOTHING, {})
  {
    hide Catalog.Ok, Recorded, TableOk, Division, BucketOk, HandedOver, Divided;
    var dir' := Divided(w.dir, start0, start1, end, adr0, adr1);
    var w' := SplitWorld(w, own', cur, dir', adr0, adr1, b0, b1);
    SplitBalanced(w.own, own', w.Account(), spare, cur, adr0, adr1);
    assert w'.buckets.Keys == w.buckets.Keys - {cur};
    assert w'.Account() == w.Account().(buckets := w.Account().buckets - {cur});
    hide Balanced;
    forall a | a in w'.buckets
      ensures TableOk(own', w'.buckets[a].avail, BucketTable(a)) && |w'.buckets[a].avail| <= BUCKET_AVAIL
    {
      if a != adr0 && a != adr1 {
        OtherTable(w.own, own', cur, adr0, adr1, w.buckets[a].avail, a);
      }
    }
    StoreDivided(w.Content({adr0, adr1}), w.slots, i, start0, start1, end, adr0, adr1, b0, b1);
    assert w'.Content({}) == DividedStore(w.Content({adr0, adr1}), i, start0, start1, end, adr0, adr1, b0, b1);
  }

  // ----- sharing the free space -----

  /** The old bucket's free entries and a fresh block are shared between the new buckets. */
  method DivideAvail(av: seq<Avail>, block: Avail, coalesce: bool) returns (av0: seq<Avail>, av1: seq<Avail>)
    requires Tidy(av) && |av| <= BUCKET_AVAIL && block.size > IGNORE_SIZE
    ensures Tidy(av0) && Tidy(av1) && |av0| < BUCKET_AVAIL && |av1| <= 2
    ensures forall x: nat :: Cover(av0, x) + Cover(av1, x) == Cover(av, x) + In(block, x)
    ensures Dealt(av, block, av0, av1, coalesce)
  {
    av0, av1 := av, [block];
    assert forall x: nat :: Cover([block], x) == In(block, x) + Cover([block][1..], x);
    if |av| == BUCKET_AVAIL {
      av1 := PutElem(av[0], av1, coalesce);
      av0 := av[1..];
    }
  }

  /** The first bucket has the old bucket's entries, but the smallest of a full table; that one has
      joined the block in the second bucket's. */
  ghost predicate Dealt(av: seq<Avail>, block: Avail, av0: seq<Avail>, av1: seq<Avail>, coalesce: bool) {
    if |av| < BUCKET_AVAIL then av0 == av && av1 == [block]
    else av0 == av[1..] && Gains([block], av[0], av1, coalesce)
  }

  /** Free space in a split: the old bucket's entries and a fresh block are dealt out, and the old
      bucket itself goes to the one of the two that does not become current. */
  method ShareAvail(av: seq<Avail>, block: Avail, old0: Avail, first: bool, coalesce: bool)
    returns (av0: seq<Avail>, av1: seq<Avail>)
    requires Tidy(av) && |av| <= BUCKET_AVAIL && block.size > IGNORE_SIZE && old0.size > IGNORE_SIZE
    ensures Tidy(av0) && Tidy(av1) && |av0| <= BUCKET_AVAIL && |av1| <= 3
    ensures Shared(av, block, old0, av0, av1)
    ensures Endowed(av, block, old0, first, av0, av1, coalesce)
  {
    hide Tidy, Cover, Gains, Dealt;
    ghost var dealt0, dealt1;
    av0, av1 := DivideAvail(av, block, coalesce);
    dealt0, dealt1 := av0, av1;
    if first {
      av1 := PutElem(old0, av1, coalesce);
    } else {
      av0 := PutElem(old0, av0, coalesce);
    }
    assert Dealt(av, block, dealt0, dealt1, coalesce);
  }

  ghost predicate Endowed(av: seq<Avail>, block: Avail, old0: Avail, first: bool, av0: seq<Avail>, av1: seq<Avail>,
                          coalesce: bool)
  {
    exists d0, d1 :: Dealt(av, block, d0, d1, coalesce) &&
                     (if first then av0 == d0 && Gains(d1, old0, av1, coalesce)
                      else Gains(d0, old0, av0, coalesce) && av1 == d1)
  }

  /** Each byte's owner once the two tables have been made. */
  ghost function SharedOwners(own: seq<Owner>, av0: seq<Avail>, av1: seq<Avail>, adr0: nat, adr1: nat): (r: seq<Owner>)
    ensures |r| == |own|
  {
    Retag(Retag(own, av1, Free(BucketTable(adr1))), av0, Free(BucketTable(adr0)))
  }

  /** The old bucket, its free entries and the fresh block are exactly what the new tables share. */
  ghost predicate Shared(av: seq<Avail>, block: Avail, old0: Avail, av0: seq<Avail>, av1: seq<Avail>) {
    forall x: nat :: Cover(av0, x) + Cover(av1, x) == Cover(av, x) + In(block, x) + In(old0, x)
  }

  lemma SpaceShared(w: World, adr: nat, cur: nat, adr0: nat, adr1: nat, av0: seq<Avail>, av1: seq<Avail>)
    requires w.Sound({adr0, adr1}, Region(adr, w.size), {}) && cur in w.buckets && adr0 in w.buckets
    requires adr1 in w.buckets
    requires cur != adr0 && cur != adr1 && adr0 != adr1 && w.buckets[adr0].avail == [] && w.buckets[adr1].avail == []
    requires Shared(w.buckets[cur].avail, Avail(w.size, adr), Avail(w.size, cur), av0, av1) && Tidy(av0) && Tidy(av1)
    ensures var own' := SharedOwners(w.own, av0, av1, adr0, adr1);
            && HandedOver(w.own, own', cur, adr0, adr1)
            && TableOk(own', av0, BucketTable(adr0)) && TableOk(own', av1, BucketTable(adr1))
  {
    hide Catalog.Ok, Recorded, Tidy;
    var own' := SharedOwners(w.own, av0, av1, adr0, adr1);
    assert TableOk(w.own, w.buckets[cur].avail, BucketTable(cur)) && TableOk(w.own, [],
        BucketTable(adr0)) && TableOk(w.own, [], BucketTable(adr1));
    assert Given(w.own, Region(cur, w.size), BucketAt(cur)) && Given(w.own, Region(adr, w.size), Reserved);
    assert forall x :: 0 <= x < |w.own| ==> Rightful(x, w.own[x], w.Account(), Region(adr, w.size));
    hide Balanced, Tabs;
    forall x: nat
      ensures Cover(av0, x) == if Owns(own', x, Free(BucketTable(adr0))) then 1 else 0
      ensures Cover(av1, x) == if Owns(own', x, Free(BucketTable(adr1))) then 1 else 0
      ensures x < |w.own| && w.own[x] in {Reserved, BucketAt(cur), Free(BucketTable(cur))} ==>
                Cover(av0, x) + Cover(av1, x) == 1
      ensures x < |w.own| && w.own[x] !in {Reserved, BucketAt(cur), Free(BucketTable(cur))} ==>
                Cover(av0, x) + Cover(av1, x) == 0
    {
      assert Cover(w.buckets[cur].avail, x) == if Owns(w.own, x, Free(BucketTable(cur))) then 1 else 0;
      assert Cover([], x) == if Owns(w.own, x, Free(BucketTable(adr0))) then 1 else 0;
      assert Cover([], x) == if Owns(w.own, x, Free(BucketTable(adr1))) then 1 else 0;
      assert x < |w.own| ==> Rightful(x, w.own[x], w.Account(), Region(adr, w.size));
    }
  }

  /** After the split no hand is laid on anything but the allocator's business. */
  lemma HandedOutside(own: seq<Owner>, own': seq<Owner>, cur: nat, adr0: nat, adr1: nat, buckets: map<nat, Bucket>,
                      size: nat, b0: Bucket, b1: Bucket)
    requires HandedOver(own, own', cur, adr0, adr1) && cur > 0 && adr0 > 0 && adr1 > 0 && Allotted(own, buckets, size)
    requires adr0 in buckets && adr1 in buckets && cur != adr0 && cur != adr1
    ensures OutsideOnly(own, own') && Allotted(own', (buckets - {cur})[adr0 := b0][adr1 := b1], size)
  {
  }

  /** The current bucket is full: every slot is taken, each by another element. */
  lemma FullTable(w: World, young: set<nat>, cur: nat)
    requires w.Sound(young, NOTHING, {}) && cur in w.buckets && cur !in young && w.buckets[cur].count == w.slots
    ensures var t := w.buckets[cur].table;
            |t| == w.slots && |t| > 0 && Empty !in t && forall s :: s in t ==> multiset(t)[s] == 1
  {
    hide Balanced, Recorded, Tabs, Catalog.Filled, Probeable;
    var t := w.buckets[cur].table;
    assert cur in w.buckets - young;
    BucketShape(w.Content(young), w.slots, cur);
    assert Empty in t ==> multiset(t)[Empty] > 0;
    forall s | s in t
      ensures multiset(t)[s] == 1
    {
      assert s.Elem?;
    }
  }

  lemma CollectedHalf(whole: Bucket, n: nat, bits: nat, bit: nat, t: seq<Slot>, count: nat, av: seq<Avail>)
    requires 0 < bits <= HASH_BITS && |whole.table| == n && n > 0 && Collected(whole.table, n, bits, bit, t, count)
    ensures var b := Bucket(av, bits, count, t);
            BucketOk(b, n) && Half(whole, b, bits, bit)
  {
    hide Probeable, Shr;
    assert whole.table[..n] == whole.table;
  }

  /** Everything a split needs to know. */
  lemma SplitReady(w: World, adr: nat, cur: nat, i: nat, bits: nat, start0: nat, start1: nat, end: nat, adr0: nat,
                   adr1: nat,
                   b0: Bucket, b1: Bucket)
    requires w.Sound({adr0, adr1}, Region(adr, w.size), {}) && Allotted(w.own, w.buckets, w.size)
    requires cur in w.buckets && adr0 in w.buckets && adr1 in w.buckets && cur !in {adr0, adr1} && adr0 != adr1
    requires cur > 0 && adr0 > 0 && adr1 > 0 && w.buckets[adr0].avail == [] && w.buckets[adr1].avail == []
    requires i < |w.dir| && w.dir[i] == cur && bits == w.buckets[cur].bits + 1 && bits <= w.dirBits <= HASH_BITS
    requires Halves(i, w.dirBits, bits, start0, start1, end) && start0 < start1 < end <= |w.dir|
    requires Half(w.buckets[cur], b0, bits, 0) && Half(w.buckets[cur], b1, bits, 1) && BucketOk(b0, w.slots)
    requires BucketOk(b1, w.slots)
    requires Tidy(b0.avail) && |b0.avail| <= BUCKET_AVAIL && Tidy(b1.avail) && |b1.avail| <= BUCKET_AVAIL
    requires Shared(w.buckets[cur].avail, Avail(w.size, adr), Avail(w.size, cur), b0.avail, b1.avail)
    ensures var own' := SharedOwners(w.own, b0.avail, b1.avail, adr0, adr1);
            && SplitWorld(w, own', cur, Divided(w.dir, start0, start1, end, adr0, adr1), adr0, adr1, b0, b1).Sound({},
                NOTHING, {})
            && OutsideOnly(w.own, own') && Allotted(own', (w.buckets - {cur})[adr0 := b0][adr1 := b1], w.size)
  {
    var own' := SharedOwners(w.own, b0.avail, b1.avail, adr0, adr1);
    hide World.Sound, Halves, Half, BucketOk, Tidy, Shared, SharedOwners, HandedOver, TableOk, Allotted;
    SpaceShared(w, adr, cur, adr0, adr1, b0.avail, b1.avail);
    assert Division(w.Content({adr0, adr1}), i, start0, start1, end, adr0, adr1, b0,
        b1) by { HalfBits(w.buckets[cur], b0, b1, bits); }
    SplitSound(w, own', Region(adr, w.size), cur, i, start0, start1, end, adr0, adr1, b0, b1);
    HandedOutside(w.own, own', cur, adr0, adr1, w.buckets, w.size, b0, b1);
  }

  lemma HalfBits(b: Bucket, b0: Bucket, b1: Bucket, bits: nat)
    requires Half(b, b0, bits, 0) && Half(b, b1, bits, 1)
    ensures b0.bits == bits && b1.bits == bits
  {
    hide Shr;
  }

  /** The key's hash, which led to the old bucket, leads to one of the new ones. */
  lemma SplitLookup(w: World, young: set<nat>, spare: Region, cur: nat, i: nat, bits: nat, start0: nat, start1: nat,
                    end: nat, adr0: nat, adr1: nat, hash: nat)
    requires w.Sound(young, spare, {}) && i < |w.dir| && w.dir[i] == cur && cur in w.buckets && cur !in young
    requires hash < Pow2(HASH_BITS)
    requires bits == w.buckets[cur].bits + 1 && bits <= w.dirBits <= HASH_BITS
    requires Halves(i, w.dirBits, bits, start0, start1, end)
    requires LookUp(w.dir, w.dirBits, hash) == cur
    ensures var d := Divided(w.dir, start0, start1, end, adr0, adr1);
            && BucketDir(hash, w.dirBits) < |d| && d[BucketDir(hash, w.dirBits)] in {adr0, adr1}
            && LookUp(d, w.dirBits, hash) == d[BucketDir(hash, w.dirBits)]
  {
    hide Balanced, Recorded, Tabs, Catalog.Filled, BucketOk, Pow2, Shr, Halves, SharedRun;
    assert cur in w.buckets - young;
    BucketExists(w.Content(young), w.slots, hash);
    DividedLookup(w.dir, w.dirBits, Depths(w.buckets - young), i, start0, start1, end, adr0, adr1, hash);
  }
}
