/**
 What a database stores, seen apart from caching and space: a directory of buckets, whose
 tables hold one slot for every key.
 */
module Content {
  import opened Bits
  import opened Layout
  import opened HashTable
  import opened Directory

  type Key = seq<byte>
  type Value = seq<byte>

  // ----- the hash (src/hash.c) -----

  /** A `char` converted to unsigned, where plain char is signed. */
  function Unsigned(b: byte): nat {
    if b < 128 then b else 0x1_0000_0000 - 256 + b
  }

  function HashFrom(key: Key, index: nat, value: nat): nat
    requires index <= |key|
    decreases |key| - index
  {
    if index == |key| then value
    else HashFrom(key, index + 1, (value + Unsigned(key[index]) * Pow2(index * 5 % 24)) % Pow2(HASH_BITS))
  }

  /** _gdbm_hash */
  function Hash(key: Key): (h: nat)
    ensures h < Pow2(HASH_BITS)
  {
    (1103515243 * HashFrom(key, 0, 0x238F13AF * |key|) + 12345) % Pow2(HASH_BITS)
  }

  /** The loop of _gdbm_hash. */
  method HashKey(key: Key) returns (h: nat)
    ensures h == Hash(key)
  {
    hide Pow2;
    var value: nat := 0x238F13AF * |key|;
    var index: nat := 0;
    while index < |key|
      invariant index <= |key| && HashFrom(key, index, value) == HashFrom(key, 0, 0x238F13AF * |key|)
    {
      value := (value + Unsigned(key[index]) * Pow2(index * 5 % 24)) % Pow2(HASH_BITS);
      index := index + 1;
    }
    h := (1103515243 * value + 12345) % Pow2(HASH_BITS);
  }

  /** A plain `char`, where it is signed. */
  function CharValue(b: byte): int {
    if b < 128 then b else b - 256
  }

  /** The sum of the first `n` characters, each shifted by five places more than the one before, modulo 24. */
  function CharSum(key: Key, n: nat): int
    requires n <= |key|
  {
    if n == 0 then 0 else CharSum(key, n - 1) + CharValue(key[n - 1]) * Pow2((n - 1) * 5 % 24)
  }

  const HASH_RANGE: int := 0x8000_0000

  /** The hash in one formula: of all the masks and overflows on the way only the last one matters. */
  lemma HashSum(key: Key)
    ensures Hash(key) == (1103515243 * (0x238F13AF * |key| + CharSum(key, |key|)) + 12345) % HASH_RANGE
  {
    hide HashFrom, CharSum;
    HashRange();
    var value := HashFrom(key, 0, 0x238F13AF * |key|);
    var q := HashFromSum(key, 0, 0x238F13AF * |key|);
    CharSumStart(key);
    var sum := 0x238F13AF * |key| + CharSum(key, |key|);
    assert 1103515243 * value + 12345 == (1103515243 * sum + 12345) + (1103515243 * q) * HASH_RANGE;
    WholeTurns(1103515243 * sum + 12345, 1103515243 * q);
  }

  lemma HashRange()
    ensures Pow2(HASH_BITS) == HASH_RANGE
  {
    assert Pow2(11) == 2048;
    Pow2Add(11, 10);
    Pow2Add(21, 10);
    assert Pow2(10) == 1024;
  }

  lemma CharSumStart(key: Key)
    ensures CharSum(key, 0) == 0
  {
  }

  lemma WholeTurns(x: int, q: int)
    ensures (x + q * HASH_RANGE) % HASH_RANGE == x % HASH_RANGE
  {
  }

  lemma {:induction false} HashFromSum(key: Key, i: nat, value: nat) returns (q: int)
    requires i <= |key|
    ensures HashFrom(key, i, value) == value + (CharSum(key, |key|) - CharSum(key, i)) + q * HASH_RANGE
    decreases |key| - i
  {
    if i == |key| {
      q := 0;
    } else {
      hide Pow2;
      var p := Pow2(i * 5 % 24);
      var sum := value + Unsigned(key[i]) * p;
      HashRange();
      var q1 := HashFromSum(key, i + 1, sum % Pow2(HASH_BITS));
      var wraps := if key[i] < 128 then 0 else 2 * p;
      Wrapped(key[i], p);
      q := q1 - sum / HASH_RANGE + wraps;
    }
  }

  lemma Wrapped(b: byte, p: nat)
    ensures Unsigned(b) * p == CharValue(b) * p + (if b < 128 then 0 else 2 * p) * HASH_RANGE
  {
  }

  /** Two values worked out: of the empty key, and of "abc". */
  lemma HashExamples()
    ensures Hash([]) == 12345 && Hash([97, 98, 99]) == 1109765619
  {
    hide Hash, CharSum;
    HashSum([]);
    CharSumStart([]);
    var key: Key := [97, 98, 99];
    HashSum(key);
    ThreeChars(key);
  }

  lemma ThreeChars(key: Key)
    requires |key| == 3 && key[0] == 97 && key[1] == 98 && key[2] == 99
    ensures CharSum(key, 3) == 97 + 98 * 32 + 99 * 1024
  {
    assert Pow2(5) == 32 && Pow2(10) == 1024 && Pow2(0) == 1;
    assert CharSum(key, 1) == 97;
    assert CharSum(key, 2) == 97 + 98 * 32;
  }

  // ----- one bucket -----

  function Prefix(key: Key): (p: Key)
    ensures p <= key && |p| <= SMALL && (|p| == SMALL || p == key)
  {
    if |key| < SMALL then key else key[..SMALL]
  }

  /** The slot describes the key and the size of its value. */
  ghost predicate Describes(s: Slot, k: Key, v: Value) {
    && s.Elem? && s.hash == Hash(k) && s.keyStart == Prefix(k)
    && s.keySize == |k| && s.dataSize == |v|
  }

  ghost predicate BucketOk(b: Bucket, n: nat) {
    && |b.table| == n && n > 0 && Probeable(b.table) && b.count == Occupied(b.table)
    && (forall s :: s in b.table && s.Elem? ==> multiset(b.table)[s] == 1)
  }

  ghost function Depths(buckets: map<nat, Bucket>): (d: map<nat, nat>)
    ensures d.Keys == buckets.Keys && forall a :: a in buckets ==> d[a] == buckets[a].bits
  {
    map a | a in buckets :: buckets[a].bits
  }

  // ----- the whole database -----

  /** `loc` names the slot of every key. */
  datatype Catalog = Catalog(dir: seq<nat>, dirBits: nat, buckets: map<nat, Bucket>, data: map<Key, Value>,
                             loc: map<Key, Slot>)
  {
    ghost predicate Shaped(n: nat) {
      && DirOk(dir, dirBits, Depths(buckets))
      && (forall a :: a in buckets ==> BucketOk(buckets[a], n))
    }

    /** The address of the bucket a hash belongs to. */
    ghost function BucketOf(hash: nat): (a: nat) {
      LookUp(dir, dirBits, hash)
    }

    ghost predicate KeyPlaced(k: Key)
      requires k in data && k in loc
    {
      && Describes(loc[k], k, data[k])
      && BucketOf(Hash(k)) in buckets && loc[k] in buckets[BucketOf(Hash(k))].table
    }

    ghost predicate SlotPlaced(a: nat, t: Slot)
      requires t.Elem?
    {
      t.hash < Pow2(HASH_BITS) && BucketOf(t.hash) == a && t in loc.Values
    }

    /** Slots and keys correspond one to one, and every slot is in the bucket of its hash. */
    ghost predicate Filled() {
      && loc.Keys == data.Keys
      && (forall k :: k in data ==> KeyPlaced(k))
      && (forall k, l :: k in data && l in data && loc[k] == loc[l] ==> k == l)
      && (forall a, t :: a in buckets && t in buckets[a].table && t.Elem? ==> SlotPlaced(a, t))
    }

    ghost predicate Ok(n: nat) {
      Shaped(n) && Filled()
    }
  }

  function LookUp(dir: seq<nat>, dirBits: nat, hash: nat): (a: nat) {
    if hash < Pow2(HASH_BITS) && dirBits <= HASH_BITS && BucketDir(hash, dirBits) < |dir|
    then dir[BucketDir(hash, dirBits)] else 0
  }

  /** Every hash has a bucket. */
  lemma BucketExists(s: Catalog, n: nat, hash: nat)
    requires s.Shaped(n) && hash < Pow2(HASH_BITS)
    ensures BucketDir(hash, s.dirBits) < |s.dir| && s.BucketOf(hash) == s.dir[BucketDir(hash, s.dirBits)]
    ensures s.BucketOf(hash) in s.buckets
  {
    assert s.dir[BucketDir(hash, s.dirBits)] in s.dir;
  }

  /** A slot in a bucket belongs to some key. */
  lemma SlotOwner(s: Catalog, a: nat, slot: Slot) returns (k: Key)
    requires s.Filled() && a in s.buckets && slot in s.buckets[a].table && slot.Elem?
    ensures k in s.data && s.loc[k] == slot && Describes(slot, k, s.data[k]) && s.BucketOf(Hash(k)) == a
  {
    hide Pow2, Hash, LookUp;
    assert s.SlotPlaced(a, slot);
    k :| k in s.loc && s.loc[k] == slot;
    assert s.KeyPlaced(k);
  }

  // ----- one bucket changes -----

  /** Replacing a bucket by one of the same depth leaves the shape alone. */
  lemma SameShape(s: Catalog, n: nat, a: nat, b: Bucket)
    requires s.Shaped(n) && a in s.buckets && b.bits == s.buckets[a].bits && BucketOk(b, n)
    ensures s.(buckets := s.buckets[a := b]).Shaped(n)
  {
    hide Pow2, DirOk, BucketOk;
    assert Depths(s.buckets[a := b]) == Depths(s.buckets);
  }

  /** Only the free table of a bucket changes. */
  lemma NewAvail(s: Catalog, n: nat, a: nat, b: Bucket)
    requires s.Ok(n) && a in s.buckets && b.table == s.buckets[a].table && b.bits == s.buckets[a].bits
    requires b.count == s.buckets[a].count
    ensures s.(buckets := s.buckets[a := b]).Ok(n)
  {
    hide Pow2, DirOk, Probeable, Hash, LookUp, Describes;
    assert BucketOk(s.buckets[a], n);
    SameShape(s, n, a, b);
    var s' := s.(buckets := s.buckets[a := b]);
    forall k | k in s.data
      ensures s'.KeyPlaced(k)
    {
      assert s.KeyPlaced(k);
    }
    forall c, t | c in s'.buckets && t in s'.buckets[c].table && t.Elem?
      ensures s'.SlotPlaced(c, t)
    {
      assert s.SlotPlaced(c, t);
    }
  }

  /** The bucket of `k` now holds exactly the other keys' slots, and `slot` if there is one. */
  ghost predicate Retabled(s: Catalog, k: Key, b: Bucket, slot: Slot) {
    && s.BucketOf(Hash(k)) in s.buckets && b.bits == s.buckets[s.BucketOf(Hash(k))].bits
    && forall t: Slot :: t.Elem? && t in b.table <==>
         t.Elem? && (t == slot || (t in s.buckets[s.BucketOf(Hash(k))].table && (k in s.loc ==> t != s.loc[k])))
  }

  /** A key is given a slot: its first one, or another one. */
  lemma Entered(s: Catalog, n: nat, k: Key, v: Value, slot: Slot, b: Bucket)
    requires s.Ok(n) && Describes(slot, k, v) && BucketOk(b, n) && Retabled(s, k, b, slot)
    requires slot in s.loc.Values ==> k in s.loc && slot == s.loc[k]
    ensures s.(buckets := s.buckets[s.BucketOf(Hash(k)) := b], data := s.data[k := v], loc := s.loc[k := slot]).Ok(n)
  {
    hide Pow2, DirOk, BucketOk, Hash, LookUp, Describes, Catalog.KeyPlaced, Catalog.SlotPlaced;
    var a := s.BucketOf(Hash(k));
    assert a in s.buckets && b.bits == s.buckets[a].bits;
    hide Retabled;
    SameShape(s, n, a, b);
    var s' := s.(buckets := s.buckets[a := b], data := s.data[k := v], loc := s.loc[k := slot]);
    assert s'.Shaped(n);
    hide Catalog.Shaped;
    forall l | l in s'.data
      ensures s'.KeyPlaced(l)
    {
      EnteredKey(s, k, v, slot, b, l);
    }
    EnteredDistinct(s, k, slot);
    forall c, t | c in s'.buckets && t in s'.buckets[c].table && t.Elem?
      ensures s'.SlotPlaced(c, t)
    {
      EnteredSlot(s, k, v, slot, b, c, t);
    }
  }

  /** Slots stay different for different keys. */
  lemma EnteredDistinct(s: Catalog, k: Key, slot: Slot)
    requires s.Filled() && (slot in s.loc.Values ==> k in s.loc && slot == s.loc[k])
    ensures var loc' := s.loc[k := slot];
            forall i, j :: i in loc' && j in loc' && loc'[i] == loc'[j] ==> i == j
  {
    hide Catalog.KeyPlaced, Catalog.SlotPlaced;
    assert forall l :: l in s.data ==> s.loc[l] in s.loc.Values;
  }

  lemma EnteredKey(s: Catalog, k: Key, v: Value, slot: Slot, b: Bucket, l: Key)
    requires s.Filled() && Describes(slot, k, v) && Retabled(s, k, b, slot) && (l in s.data || l == k)
    ensures s.(buckets := s.buckets[s.BucketOf(Hash(k)) := b], data := s.data[k := v],
              loc := s.loc[k := slot]).KeyPlaced(l)
  {
    hide Pow2, Hash, LookUp;
    if l != k {
      assert s.KeyPlaced(l);
    }
  }

  lemma EnteredSlot(s: Catalog, k: Key, v: Value, slot: Slot, b: Bucket, c: nat, t: Slot)
    requires s.Filled() && Describes(slot, k, v) && Retabled(s, k, b, slot)
    requires c in s.buckets && t.Elem? && t in (if c == s.BucketOf(Hash(k)) then b else s.buckets[c]).table
    ensures s.(buckets := s.buckets[s.BucketOf(Hash(k)) := b], data := s.data[k := v],
              loc := s.loc[k := slot]).SlotPlaced(c, t)
  {
    hide Pow2, Hash, LookUp;
    var loc' := s.loc[k := slot];
    if c == s.BucketOf(Hash(k)) && t == slot {
      assert loc'[k] == t;
      HashBound(k);
    } else {
      var l := SlotOwner(s, c, t);
      assert s.SlotPlaced(c, t);
      assert l != k && loc'[l] == t;
    }
  }

  lemma HashBound(k: Key)
    ensures Hash(k) < Pow2(HASH_BITS)
  {
  }

  /** A key leaves its bucket. */
  lemma Removed(s: Catalog, n: nat, k: Key, b: Bucket)
    requires s.Ok(n) && k in s.data && BucketOk(b, n) && Retabled(s, k, b, Empty)
    ensures s.(buckets := s.buckets[s.BucketOf(Hash(k)) := b], data := s.data - {k}, loc := s.loc - {k}).Ok(n)
  {
    hide Pow2, DirOk, BucketOk, Hash, LookUp;
    var a := s.BucketOf(Hash(k));
    SameShape(s, n, a, b);
    var s' := s.(buckets := s.buckets[a := b], data := s.data - {k}, loc := s.loc - {k});
    forall l | l in s'.data
      ensures s'.KeyPlaced(l)
    {
      assert s.KeyPlaced(l) && s.loc[l] != s.loc[k];
    }
    forall c, t | c in s'.buckets && t in s'.buckets[c].table && t.Elem?
      ensures s'.SlotPlaced(c, t)
    {
      var l := SlotOwner(s, c, t);
      assert s.SlotPlaced(c, t);
      assert l != k && s'.loc[l] == t;
    }
  }

  // ----- the directory changes -----

  lemma StoreDoubled(s: Catalog, n: nat)
    requires s.Ok(n) && s.dirBits < HASH_BITS
    ensures s.(dir := Doubled(s.dir), dirBits := s.dirBits + 1).Ok(n)
  {
    hide Pow2, Shr, BucketOk, Hash, SharedRun, Describes;
    var s' := s.(dir := Doubled(s.dir), dirBits := s.dirBits + 1);
    DoubledOk(s.dir, s.dirBits, Depths(s.buckets));
    forall h: nat | h < Pow2(HASH_BITS)
      ensures s'.BucketOf(h) == s.BucketOf(h)
    {
      DoubledLookup(s.dir, s.dirBits, h);
    }
    SamePlaces(s, s');
  }

  lemma SamePlaces(s: Catalog, s': Catalog)
    requires s.Filled() && s' == s.(dir := s'.dir, dirBits := s'.dirBits)
    requires forall h: nat :: h < Pow2(HASH_BITS) ==> s'.BucketOf(h) == s.BucketOf(h)
    ensures s'.Filled()
  {
    hide Pow2, Hash, LookUp, Describes;
    forall k | k in s.data
      ensures s'.KeyPlaced(k)
    {
      assert s.KeyPlaced(k);
      HashBound(k);
    }
    forall c, t | c in s'.buckets && t in s'.buckets[c].table && t.Elem?
      ensures s'.SlotPlaced(c, t)
    {
      assert s.SlotPlaced(c, t);
    }
  }

  /** `b` holds the slots of `whole` whose next hash bit is `bit`. */
  ghost predicate Half(whole: Bucket, b: Bucket, bits: nat, bit: nat) {
    && bits <= HASH_BITS && b.bits == bits
    && forall t: Slot :: t.Elem? && t in b.table <==>
          t.Elem? && t in whole.table && Shr(t.hash, HASH_BITS - bits) % 2 == bit
  }

  /** The bucket of directory entry `i` is divided by the next hash bit. */
  ghost predicate Division(s: Catalog, i: nat, start0: nat, start1: nat, end: nat, adr0: nat, adr1: nat, b0: Bucket,
                           b1: Bucket) {
    && i < |s.dir| && s.dir[i] in s.buckets && s.buckets[s.dir[i]].bits < s.dirBits <= HASH_BITS
    && var bits := s.buckets[s.dir[i]].bits + 1;
       && Halves(i, s.dirBits, bits, start0, start1, end) && start0 < start1 < end <= |s.dir|
       && adr0 != adr1 && adr0 !in s.buckets && adr1 !in s.buckets && b0.bits == bits && b1.bits == bits
       && Half(s.buckets[s.dir[i]], b0, bits, 0) && Half(s.buckets[s.dir[i]], b1, bits, 1)
  }

  ghost function DividedStore(s: Catalog, i: nat, start0: nat, start1: nat, end: nat, adr0: nat, adr1: nat,
                              b0: Bucket, b1: Bucket): Catalog
    requires i < |s.dir|
  {
    s.(dir := Divided(s.dir, start0, start1, end, adr0, adr1),
       buckets := (s.buckets - {s.dir[i]})[adr0 := b0][adr1 := b1])
  }

  lemma StoreDivided(s: Catalog, n: nat, i: nat, start0: nat, start1: nat, end: nat, adr0: nat, adr1: nat, b0: Bucket,
                     b1: Bucket)
    requires s.Ok(n) && Division(s, i, start0, start1, end, adr0, adr1, b0, b1) && BucketOk(b0, n) && BucketOk(b1, n)
    ensures DividedStore(s, i, start0, start1, end, adr0, adr1, b0, b1).Ok(n)
  {
    hide Pow2, Shr, BucketOk, Hash, SharedRun, Halves, Half, Describes, LookUp, Catalog.KeyPlaced, Catalog.SlotPlaced,
         DirOk, Divided;
    var s' := DividedStore(s, i, start0, start1, end, adr0, adr1, b0, b1);
    var a, bits := s.dir[i], s.buckets[s.dir[i]].bits + 1;
    DividedOk(s.dir, s.dirBits, Depths(s.buckets), i, start0, start1, end, adr0, adr1);
    assert Depths(s'.buckets) == DividedDepth(Depths(s.buckets), a, bits, adr0, adr1);
    forall h: nat | h < Pow2(HASH_BITS)
      ensures s'.BucketOf(h) == if s.BucketOf(h) != a then s.BucketOf(h)
                                else if Shr(h, HASH_BITS - bits) % 2 == 0 then adr0 else adr1
    {
      DividedBucketOf(s, n, i, start0, start1, end, adr0, adr1, b0, b1, h);
    }
    DividedPlaces(s, s', a, bits, adr0, adr1, b0, b1);
  }

  lemma DividedBucketOf(s: Catalog, n: nat, i: nat, start0: nat, start1: nat, end: nat, adr0: nat, adr1: nat,
                        b0: Bucket, b1: Bucket, h: nat)
    requires s.Shaped(n) && Division(s, i, start0, start1, end, adr0, adr1, b0, b1) && h < Pow2(HASH_BITS)
    ensures var s', a := DividedStore(s, i, start0, start1, end, adr0, adr1, b0, b1), s.dir[i];
            s'.BucketOf(h) == if s.BucketOf(h) != a then s.BucketOf(h)
                              else if Shr(h, HASH_BITS - (s.buckets[a].bits + 1)) % 2 == 0 then adr0 else adr1
  {
    hide Pow2, Shr, BucketOk, Hash, SharedRun, Halves, Half;
    DividedLookup(s.dir, s.dirBits, Depths(s.buckets), i, start0, start1, end, adr0, adr1, h);
  }

  lemma DividedPlaces(s: Catalog, s': Catalog, a: nat, bits: nat, adr0: nat, adr1: nat, b0: Bucket, b1: Bucket)
    requires s.Filled() && a in s.buckets && adr0 != adr1 && adr0 !in s.buckets && adr1 !in s.buckets
    requires s' == s.(dir := s'.dir, buckets := (s.buckets - {a})[adr0 := b0][adr1 := b1])
    requires Half(s.buckets[a], b0, bits, 0) && Half(s.buckets[a], b1, bits, 1)
    requires forall h: nat :: h < Pow2(HASH_BITS) ==>
               s'.BucketOf(h) == if s.BucketOf(h) != a then s.BucketOf(h)
                                 else if Shr(h, HASH_BITS - bits) % 2 == 0 then adr0 else adr1
    ensures s'.Filled()
  {
    hide Pow2, Hash, LookUp, Shr;
    forall k | k in s.data
      ensures s'.KeyPlaced(k)
    {
      DividedKey(s, s', a, bits, adr0, adr1, b0, b1, k);
    }
    forall c, t | c in s'.buckets && t in s'.buckets[c].table && t.Elem?
      ensures s'.SlotPlaced(c, t)
    {
      assert s.SlotPlaced(if c == adr0 || c == adr1 then a else c, t);
    }
  }

  lemma DividedKey(s: Catalog, s': Catalog, a: nat, bits: nat, adr0: nat, adr1: nat, b0: Bucket, b1: Bucket, k: Key)
    requires k in s.data && k in s.loc && s.KeyPlaced(k) && a in s.buckets
    requires adr0 != adr1 && adr0 !in s.buckets && adr1 !in s.buckets
    requires s' == s.(dir := s'.dir, buckets := (s.buckets - {a})[adr0 := b0][adr1 := b1])
    requires Half(s.buckets[a], b0, bits, 0) && Half(s.buckets[a], b1, bits, 1)
    requires s'.BucketOf(Hash(k)) == if s.BucketOf(Hash(k)) != a then s.BucketOf(Hash(k))
                                     else if Shr(Hash(k), HASH_BITS - bits) % 2 == 0 then adr0 else adr1
    ensures s'.KeyPlaced(k)
  {
    hide Pow2, Hash, LookUp, Shr;
    HashBound(k);
  }

  // ----- how many keys a bucket has -----

  ghost function KeysOf(s: Catalog, a: nat): set<Key> {
    set k | k in s.data && s.BucketOf(Hash(k)) == a
  }

  /** A bucket's count is the number of keys whose hash leads to it. */
  lemma BucketKeys(s: Catalog, n: nat, a: nat)
    requires s.Ok(n) && a in s.buckets
    ensures |KeysOf(s, a)| == s.buckets[a].count
  {
    hide Pow2, DirOk, Probeable, Hash, LookUp;
    var t := s.buckets[a].table;
    var slots := set x | x in t && x.Elem?;
    forall x
      ensures x in slots <==> x in set k | k in KeysOf(s, a) :: s.loc[k]
    {
      if x in slots {
        var k := SlotOwner(s, a, x);
        assert k in KeysOf(s, a);
      }
      assert forall k :: k in KeysOf(s, a) ==> s.KeyPlaced(k);
    }
    SameSize(KeysOf(s, a), s.loc, slots);
    assert BucketOk(s.buckets[a], n);
    SlotCount(t, slots);
  }

  lemma {:induction false} SameSize(keys: set<Key>, loc: map<Key, Slot>, slots: set<Slot>)
    requires keys <= loc.Keys && slots == set k | k in keys :: loc[k]
    requires forall k, l :: k in keys && l in keys && loc[k] == loc[l] ==> k == l
    ensures |keys| == |slots|
    decreases keys
  {
    if keys != {} {
      var k :| k in keys;
      SameSize(keys - {k}, loc, slots - {loc[k]});
    }
  }

  lemma SlotCount(t: seq<Slot>, slots: set<Slot>)
    requires slots == (set x | x in t && x.Elem?) && forall x :: x in t && x.Elem? ==> multiset(t)[x] == 1
    ensures |slots| == Occupied(t)
  {
    var m := multiset(t);
    forall x: Slot
      ensures m[Empty := 0][x] == multiset(slots)[x]
    {
      assert x in t <==> x in m;
    }
    assert m[Empty := 0] == multiset(slots);
    assert |m[Empty := 0]| == |m| - m[Empty];
  }
}
